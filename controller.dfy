/** The expense controller as an object that owns the expenses table and
    changes it in place.  Each action takes the resolved caller id in
    place of the ambient authenticated user.  Each method is proved to
    agree with the reference function of the same name in ExpenseStore,
    and its contract also states the new table directly. */
module Controllers {
  import opened Expenses
  import ExpenseStore

  class ExpenseController {
    var rows: map<ExpenseId, Expense>
    var nextId: ExpenseId

    function State(): ExpenseStore.Table
      reads this
    {
      ExpenseStore.Table(rows, nextId)
    }

    ghost predicate Valid()
      reads this
    {
      ExpenseStore.Valid(State())
    }

    constructor ()
      ensures Valid()
      ensures State() == ExpenseStore.Empty
    {
      rows := map[];
      nextId := 1;
    }

    /** index: the caller's expenses, newest date first. */
    function Index(caller: UserId): (r: seq<Expense>)
      reads this
      requires Valid()
      ensures ExpenseStore.SortedByDateDesc(r)
      ensures forall e :: e in r ==> e.id in rows && rows[e.id] == e && e.userId == caller
      ensures forall i :: i in rows && rows[i].userId == caller ==> rows[i] in r
      ensures ExpenseStore.NoRepeats(r)
    {
      ExpenseStore.Index(State(), caller)
    }

    /** show: the expense with this id if the caller owns it. */
    function Show(caller: UserId, id: ExpenseId): (r: Response)
      reads this
      ensures r.Ok? || r == NotFound
      ensures r.Ok? <==> id in rows && rows[id].userId == caller
      ensures r.Ok? ==> r.expense == rows[id]
    {
      ExpenseStore.Show(State(), caller, id)
    }

    /** store */
    method Store(caller: UserId, req: Request) returns (resp: Response)
      requires Valid()
      modifies this
      ensures Valid()
      ensures ExpenseStore.Outcome(resp, State()) == ExpenseStore.Store(old(State()), caller, req)
      ensures resp.Created? ==>
        && resp.expense.id == old(nextId) && resp.expense.id !in old(rows)
        && resp.expense.userId == caller
        && rows == old(rows)[resp.expense.id := resp.expense] && nextId == old(nextId) + 1
      ensures !resp.Created? ==> rows == old(rows) && nextId == old(nextId)
    {
      if !Validates(req) {
        return Invalid;
      }
      if ExpenseStore.TitleTaken(rows, caller, req.title.value) {
        return DuplicateTitle;
      }
      var e := NewExpense(nextId, caller, req);
      rows := rows[nextId := e];
      nextId := nextId + 1;
      resp := Created(e);
    }

    /** update */
    method Update(caller: UserId, id: ExpenseId, req: Request) returns (resp: Response)
      requires Valid()
      modifies this
      ensures Valid()
      ensures ExpenseStore.Outcome(resp, State()) == ExpenseStore.Update(old(State()), caller, id, req)
      ensures resp.Ok? ==>
        && resp.expense.id == id && resp.expense.userId == caller
        && rows == old(rows)[id := resp.expense]
      ensures !resp.Ok? ==> rows == old(rows)
      ensures nextId == old(nextId)
    {
      if !ExpenseStore.OwnedBy(rows, caller, id) {
        return NotFound;
      }
      if !Validates(req) {
        return Invalid;
      }
      var e := Apply(rows[id], req);
      rows := rows[id := e];
      resp := Ok(e);
    }

    /** destroy */
    method Destroy(caller: UserId, id: ExpenseId) returns (resp: Response)
      requires Valid()
      modifies this
      ensures Valid()
      ensures ExpenseStore.Outcome(resp, State()) == ExpenseStore.Destroy(old(State()), caller, id)
      ensures resp == Deleted ==> old(rows)[id].userId == caller && rows == old(rows) - {id}
      ensures resp != Deleted ==> resp == NotFound && rows == old(rows)
      ensures nextId == old(nextId)
    {
      if !ExpenseStore.OwnedBy(rows, caller, id) {
        return NotFound;
      }
      rows := rows - {id};
      resp := Deleted;
    }
  }
}
