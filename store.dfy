/** The expense table as a value and the five controller actions as
    functions on it.  Each action takes the caller's id explicitly and
    returns the response together with the table it leaves behind.  These
    functions are the reference the imperative controller is proved
    against, and the lemmas below relate several actions to each other. */
module ExpenseStore {
  import opened Expenses

  /** The rows of the expenses table keyed by primary key, and the next
      value of the auto-increment counter. */
  datatype Table = Table(rows: map<ExpenseId, Expense>, nextId: ExpenseId)

  datatype Outcome = Outcome(response: Response, table: Table)

  /** A freshly migrated table: no rows, and the counter starts at 1. */
  const Empty: Table := Table(map[], 1)

  /** Every row is stored under its own id, and every id handed out so far
      is below the counter. */
  ghost predicate Valid(t: Table) {
    forall i :: i in t.rows ==> i < t.nextId && t.rows[i].id == i
  }

  /** `where('id', id)->where('user_id', caller)` matches a row */
  predicate OwnedBy(rows: map<ExpenseId, Expense>, caller: UserId, id: ExpenseId) {
    id in rows && rows[id].userId == caller
  }

  /** `where('user_id', caller)->where('title', title)->first()` finds a row */
  predicate TitleTaken(rows: map<ExpenseId, Expense>, caller: UserId, title: string) {
    exists i :: i in rows && rows[i].userId == caller && rows[i].title == title
  }

  /** No user owns two rows with the same title. */
  ghost predicate TitlesUniquePerUser(t: Table) {
    forall i, j :: i in t.rows && j in t.rows && i != j && t.rows[i].userId == t.rows[j].userId
      ==> t.rows[i].title != t.rows[j].title
  }

  ghost predicate SortedByDateDesc(s: seq<Expense>) {
    forall j, k :: 0 <= j < k < |s| ==> s[j].date >= s[k].date
  }

  ghost predicate NoRepeats(s: seq<Expense>) {
    forall j, k :: 0 <= j < k < |s| ==> s[j] != s[k]
  }

  /** The caller's rows with a key below n, in ascending key order: a scan
      of `where('user_id', caller)`. */
  function OwnedBelow(rows: map<ExpenseId, Expense>, caller: UserId, n: nat): (r: seq<Expense>)
    requires forall i :: i in rows ==> rows[i].id == i
    ensures forall k :: 0 <= k < |r| ==> r[k].id < n && OwnedBy(rows, caller, r[k].id) && rows[r[k].id] == r[k]
    ensures forall i :: 0 <= i < n && OwnedBy(rows, caller, i) ==> rows[i] in r
    ensures forall j, k :: 0 <= j < k < |r| ==> r[j].id < r[k].id
  {
    if n == 0 then []
    else OwnedBelow(rows, caller, n - 1) + (if OwnedBy(rows, caller, n - 1) then [rows[n - 1]] else [])
  }

  /** Places e in front of the first row of s with the same or an earlier
      date, so rows of equal date keep their order. */
  function InsertByDate(e: Expense, s: seq<Expense>): (r: seq<Expense>)
    requires SortedByDateDesc(s)
    ensures SortedByDateDesc(r)
    ensures multiset(r) == multiset(s) + multiset{e}
    ensures NoRepeats(s) && e !in s ==> NoRepeats(r)
  {
    if s == [] || e.date >= s[0].date then
      SortedCons(e, s);
      NoRepeatsCons(e, s);
      [e] + s
    else
      var tail := InsertByDate(e, s[1..]);
      assert s == [s[0]] + s[1..];
      assert tail[0] in multiset(tail);
      SortedCons(s[0], tail);
      NoRepeatsTail(s);
      assert s[0] in tail ==> s[0] in multiset(tail);
      NoRepeatsCons(s[0], tail);
      [s[0]] + tail
  }

  lemma SortedCons(x: Expense, s: seq<Expense>)
    requires SortedByDateDesc(s)
    requires s == [] || x.date >= s[0].date
    ensures SortedByDateDesc([x] + s)
  {
  }

  lemma NoRepeatsCons(x: Expense, s: seq<Expense>)
    ensures NoRepeats(s) && x !in s ==> NoRepeats([x] + s)
  {
  }

  /** `orderBy('date', 'desc')`, as a stable insertion sort. */
  function SortByDateDesc(s: seq<Expense>): (r: seq<Expense>)
    ensures SortedByDateDesc(r)
    ensures multiset(r) == multiset(s)
    ensures NoRepeats(s) ==> NoRepeats(r)
  {
    if s == [] then []
    else
      var sorted := SortByDateDesc(s[1..]);
      assert s == [s[0]] + s[1..];
      NoRepeatsTail(s);
      assert NoRepeats(s) ==> s[0] !in sorted by {
        assert s[0] in sorted ==> s[0] in multiset(s[1..]);
      }
      InsertByDate(s[0], sorted)
  }

  lemma NoRepeatsTail(s: seq<Expense>)
    requires s != []
    ensures NoRepeats(s) ==> NoRepeats(s[1..]) && s[0] !in s[1..]
  {
  }

  /** index: exactly the caller's rows, each once, newest date first. */
  function Index(t: Table, caller: UserId): (r: seq<Expense>)
    requires Valid(t)
    ensures SortedByDateDesc(r)
    ensures forall e :: e in r ==> OwnedBy(t.rows, caller, e.id) && t.rows[e.id] == e
    ensures forall i :: OwnedBy(t.rows, caller, i) ==> t.rows[i] in r
    ensures NoRepeats(r)
  {
    var owned := OwnedBelow(t.rows, caller, t.nextId);
    var r := SortByDateDesc(owned);
    assert forall e :: e in r <==> e in owned by {
      forall e ensures e in r <==> e in owned {
        assert e in r <==> e in multiset(r);
      }
    }
    r
  }

  /** show: the row with this id if the caller owns it, not-found otherwise. */
  function Show(t: Table, caller: UserId, id: ExpenseId): (r: Response)
    ensures r.Ok? || r == NotFound
    ensures r.Ok? <==> OwnedBy(t.rows, caller, id)
    ensures r.Ok? ==> r.expense == t.rows[id]
  {
    if OwnedBy(t.rows, caller, id) then Ok(t.rows[id]) else NotFound
  }

  /** The fields of a row created from a validated body. */
  ghost predicate CreatedFrom(e: Expense, req: Request)
    requires Validates(req)
  {
    && e.title == req.title.value && e.amount == req.amount.value && e.date == req.date.value
    && e.category == Stored(req.category) && e.notes == Stored(req.notes)
  }

  /** store: validate, refuse a title the caller already uses, insert. */
  function Store(t: Table, caller: UserId, req: Request): (o: Outcome)
    ensures !Validates(req) ==> o == Outcome(Invalid, t)
    ensures Validates(req) && TitleTaken(t.rows, caller, req.title.value) ==> o == Outcome(DuplicateTitle, t)
    ensures o.response.Created? <==> Validates(req) && !TitleTaken(t.rows, caller, req.title.value)
    ensures o.response.Created? ==>
      var e := o.response.expense;
      && e.id == t.nextId && e.userId == caller && CreatedFrom(e, req)
      && o.table.rows == t.rows[e.id := e] && o.table.nextId == t.nextId + 1
    ensures Valid(t) && o.response.Created? ==> o.response.expense.id !in t.rows
    ensures Valid(t) ==> Valid(o.table)
  {
    if !Validates(req) then Outcome(Invalid, t)
    else if TitleTaken(t.rows, caller, req.title.value) then Outcome(DuplicateTitle, t)
    else
      var e := NewExpense(t.nextId, caller, req);
      Outcome(Created(e), Table(t.rows[t.nextId := e], t.nextId + 1))
  }

  /** update: locate the owned row, then validate, then overwrite. */
  function Update(t: Table, caller: UserId, id: ExpenseId, req: Request): (o: Outcome)
    ensures !OwnedBy(t.rows, caller, id) ==> o == Outcome(NotFound, t)
    ensures OwnedBy(t.rows, caller, id) && !Validates(req) ==> o == Outcome(Invalid, t)
    ensures o.response.Ok? <==> OwnedBy(t.rows, caller, id) && Validates(req)
    ensures o.response.Ok? ==>
      var e := o.response.expense;
      && e.id == t.rows[id].id && e.userId == caller
      && e.title == req.title.value && e.amount == req.amount.value && e.date == req.date.value
      && (req.category.Omitted? ==> e.category == t.rows[id].category)
      && (req.notes.Omitted? ==> e.notes == t.rows[id].notes)
      && (req.category.Null? ==> e.category == None)
      && (req.notes.Null? ==> e.notes == None)
      && (req.category.Given? ==> e.category == Some(req.category.value))
      && (req.notes.Given? ==> e.notes == Some(req.notes.value))
      && o.table == Table(t.rows[id := e], t.nextId)
    ensures Valid(t) ==> Valid(o.table)
  {
    if !OwnedBy(t.rows, caller, id) then Outcome(NotFound, t)
    else if !Validates(req) then Outcome(Invalid, t)
    else
      var e := Apply(t.rows[id], req);
      Outcome(Ok(e), Table(t.rows[id := e], t.nextId))
  }

  /** destroy: locate the owned row, then remove it. */
  function Destroy(t: Table, caller: UserId, id: ExpenseId): (o: Outcome)
    ensures !OwnedBy(t.rows, caller, id) ==> o == Outcome(NotFound, t)
    ensures o.response == Deleted <==> OwnedBy(t.rows, caller, id)
    ensures o.response == Deleted ==>
      && o.table.rows.Keys == t.rows.Keys - {id}
      && (forall i :: i in o.table.rows ==> o.table.rows[i] == t.rows[i])
      && o.table.nextId == t.nextId
    ensures Valid(t) ==> Valid(o.table)
  {
    if !OwnedBy(t.rows, caller, id) then Outcome(NotFound, t)
    else Outcome(Deleted, Table(t.rows - {id}, t.nextId))
  }
}
