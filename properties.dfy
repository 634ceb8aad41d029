/** Properties of the expense store that relate several actions: the
    ownership filter, per-user title uniqueness, round trips and what a
    deletion leaves behind. */
module StoreProperties {
  import opened Expenses
  import opened ExpenseStore

  /** Two tables that agree on the caller's rows list the same rows. */
  lemma {:induction false} OwnedBelowAgree(
    m1: map<ExpenseId, Expense>, m2: map<ExpenseId, Expense>, caller: UserId, n: nat)
    requires forall i :: i in m1 ==> m1[i].id == i
    requires forall i :: i in m2 ==> m2[i].id == i
    requires forall i :: OwnedBy(m1, caller, i) <==> OwnedBy(m2, caller, i)
    requires forall i :: OwnedBy(m1, caller, i) ==> i in m2 && m1[i] == m2[i]
    ensures OwnedBelow(m1, caller, n) == OwnedBelow(m2, caller, n)
  {
    if n > 0 {
      OwnedBelowAgree(m1, m2, caller, n - 1);
    }
  }

  /** Two row maps hold the same rows for the caller. */
  ghost predicate AgreeFor(m1: map<ExpenseId, Expense>, m2: map<ExpenseId, Expense>, caller: UserId) {
    && (forall i :: OwnedBy(m1, caller, i) <==> OwnedBy(m2, caller, i))
    && (forall i :: OwnedBy(m1, caller, i) ==> i in m2 && m1[i] == m2[i])
  }

  /** Scanning past the last key adds nothing. */
  lemma {:induction false} OwnedBelowPast(m: map<ExpenseId, Expense>, caller: UserId, n: nat, n': nat)
    requires forall i :: i in m ==> m[i].id == i && i < n
    requires n <= n'
    ensures OwnedBelow(m, caller, n') == OwnedBelow(m, caller, n)
    decreases n'
  {
    if n' > n {
      OwnedBelowPast(m, caller, n, n' - 1);
    }
  }

  /** Index answers the caller from the caller's rows alone. */
  lemma IndexDependsOnlyOnOwnRows(t1: Table, t2: Table, caller: UserId)
    requires Valid(t1) && Valid(t2) && AgreeFor(t1.rows, t2.rows, caller)
    ensures Index(t1, caller) == Index(t2, caller)
  {
    var n := if t1.nextId < t2.nextId then t2.nextId else t1.nextId;
    OwnedBelowPast(t1.rows, caller, t1.nextId, n);
    OwnedBelowPast(t2.rows, caller, t2.nextId, n);
    OwnedBelowAgree(t1.rows, t2.rows, caller, n);
  }

  /** Both tables are valid, have the same counter, and agree on the
      caller's rows. */
  ghost predicate SameForCaller(t1: Table, t2: Table, caller: UserId) {
    Valid(t1) && Valid(t2) && t1.nextId == t2.nextId && AgreeFor(t1.rows, t2.rows, caller)
  }

  /** The caller's title check sees only the caller's rows. */
  lemma TitleTakenAgree(t1: Table, t2: Table, caller: UserId, title: string)
    requires AgreeFor(t1.rows, t2.rows, caller)
    ensures TitleTaken(t1.rows, caller, title) == TitleTaken(t2.rows, caller, title)
  {
  }

  /** Every action answers the caller from the caller's own rows alone:
      two tables that hold the same rows for the caller give the caller
      the same response to every request. */
  lemma {:induction false} ResponsesDependOnlyOnOwnRows(t1: Table, t2: Table, caller: UserId)
    requires SameForCaller(t1, t2, caller)
    ensures Index(t1, caller) == Index(t2, caller)
    ensures forall id :: Show(t1, caller, id) == Show(t2, caller, id)
    ensures forall req :: Store(t1, caller, req).response == Store(t2, caller, req).response
    ensures forall id, req :: Update(t1, caller, id, req).response == Update(t2, caller, id, req).response
    ensures forall id :: Destroy(t1, caller, id).response == Destroy(t2, caller, id).response
  {
    IndexDependsOnlyOnOwnRows(t1, t2, caller);
    forall req ensures Store(t1, caller, req).response == Store(t2, caller, req).response {
      if Validates(req) {
        TitleTakenAgree(t1, t2, caller, req.title.value);
      }
    }
  }

  /** Another user's row is invisible: removing it from the table changes
      no response to the caller. */
  lemma OthersRowsInvisible(t: Table, caller: UserId, id: ExpenseId)
    requires Valid(t) && id in t.rows && t.rows[id].userId != caller
    ensures var t' := Table(t.rows - {id}, t.nextId);
      && Index(t, caller) == Index(t', caller)
      && (forall j :: Show(t, caller, j) == Show(t', caller, j))
      && (forall req :: Store(t, caller, req).response == Store(t', caller, req).response)
      && (forall j, req :: Update(t, caller, j, req).response == Update(t', caller, j, req).response)
      && (forall j :: Destroy(t, caller, j).response == Destroy(t', caller, j).response)
  {
    ResponsesDependOnlyOnOwnRows(t, Table(t.rows - {id}, t.nextId), caller);
  }

  /** A row owned by someone else gets exactly the answer of an id that
      does not exist, and neither changes the table. */
  lemma ForeignLikeMissing(t: Table, caller: UserId, id: ExpenseId, missing: ExpenseId, req: Request)
    requires id in t.rows && t.rows[id].userId != caller
    requires missing !in t.rows
    ensures Show(t, caller, id) == Show(t, caller, missing) == NotFound
    ensures Update(t, caller, id, req) == Update(t, caller, missing, req) == Outcome(NotFound, t)
    ensures Destroy(t, caller, id) == Destroy(t, caller, missing) == Outcome(NotFound, t)
  {
  }

  /** A store by one user never changes what another user can see. */
  lemma StoreInvisibleToOthers(t: Table, caller: UserId, other: UserId, req: Request)
    requires Valid(t) && caller != other
    ensures var o := Store(t, caller, req);
      AgreeFor(t.rows, o.table.rows, other) && Index(o.table, other) == Index(t, other)
  {
    IndexDependsOnlyOnOwnRows(t, Store(t, caller, req).table, other);
  }

  /** An update by one user never changes what another user can see. */
  lemma UpdateInvisibleToOthers(t: Table, caller: UserId, other: UserId, id: ExpenseId, req: Request)
    requires Valid(t) && caller != other
    ensures var o := Update(t, caller, id, req);
      AgreeFor(t.rows, o.table.rows, other) && Index(o.table, other) == Index(t, other)
  {
    IndexDependsOnlyOnOwnRows(t, Update(t, caller, id, req).table, other);
  }

  /** A destroy by one user never changes what another user can see. */
  lemma DestroyInvisibleToOthers(t: Table, caller: UserId, other: UserId, id: ExpenseId)
    requires Valid(t) && caller != other
    ensures var o := Destroy(t, caller, id);
      AgreeFor(t.rows, o.table.rows, other) && Index(o.table, other) == Index(t, other)
  {
    IndexDependsOnlyOnOwnRows(t, Destroy(t, caller, id).table, other);
  }

  /** A body without a usable title, without an amount or a date, or with
      an over-long category that is not all whitespace, is rejected by
      store and by an update of an owned row, and the table stays as it
      was. */
  lemma BadBodiesRejected(t: Table, caller: UserId, id: ExpenseId, req: Request)
    requires || req.title.Omitted? || req.title.Null?
             || (req.title.Given? && (Blank(req.title.value) || |req.title.value| > MaxLength))
             || (req.category.Given? && !Blank(req.category.value) && |req.category.value| > MaxLength)
             || req.amount.Omitted? || req.amount.Null?
             || req.date.Omitted? || req.date.Null?
    ensures Store(t, caller, req) == Outcome(Invalid, t)
    ensures OwnedBy(t.rows, caller, id) ==> Update(t, caller, id, req) == Outcome(Invalid, t)
  {
  }

  /** The converse: a body with a sent title that has a character trim()
      keeps and at most 255 characters, a sent amount and date, and a
      category that is null, omitted, all whitespace or at most 255
      characters, passes validation.  Store then either creates the row or
      refuses the title as a duplicate, and an update of an owned row
      succeeds, whatever the notes hold. */
  lemma GoodBodiesAccepted(t: Table, caller: UserId, id: ExpenseId, req: Request)
    requires req.title.Given? && !Blank(req.title.value) && |req.title.value| <= MaxLength
    requires req.amount.Given? && req.date.Given?
    requires req.category.Given? && !Blank(req.category.value) ==> |req.category.value| <= MaxLength
    ensures Store(t, caller, req).response.Created? || Store(t, caller, req).response == DuplicateTitle
    ensures OwnedBy(t.rows, caller, id) ==> Update(t, caller, id, req).response.Ok?
  {
  }

  /** The duplicate-title query finds a row exactly when index lists one
      of the caller's expenses with that title. */
  lemma TitleTakenIffListed(t: Table, caller: UserId, title: string)
    requires Valid(t)
    ensures TitleTaken(t.rows, caller, title) <==> exists e :: e in Index(t, caller) && e.title == title
  {
  }

  /** Show finds an id exactly when index lists an expense with that id:
      the lookup of show, update and destroy and the scan of index apply
      the same ownership filter. */
  lemma OwnedByIffListed(t: Table, caller: UserId, id: ExpenseId)
    requires Valid(t)
    ensures OwnedBy(t.rows, caller, id) <==> exists e :: e in Index(t, caller) && e.id == id
  {
  }

  /** Store then show: the caller reads back the record store returned,
      and it is listed by index. */
  lemma StoreThenShow(t: Table, caller: UserId, req: Request)
    requires Valid(t)
    ensures var o := Store(t, caller, req);
      o.response.Created? ==>
        && Show(o.table, caller, o.response.expense.id) == Ok(o.response.expense)
        && o.response.expense in Index(o.table, caller)
  {
  }

  /** The same title is refused a second time for one user and accepted
      for another user. */
  lemma {:induction false} TitleUniquenessIsPerUser(t: Table, a: UserId, b: UserId, req: Request)
    requires Valid(t) && Validates(req) && a != b
    requires !TitleTaken(t.rows, a, req.title.value) && !TitleTaken(t.rows, b, req.title.value)
    ensures var o1 := Store(t, a, req);
      var o2 := Store(o1.table, b, req);
      && o1.response.Created? && o2.response.Created?
      && Store(o2.table, a, req) == Outcome(DuplicateTitle, o2.table)
      && Store(o2.table, b, req) == Outcome(DuplicateTitle, o2.table)
  {
    var o1 := Store(t, a, req);
    var e1 := o1.response.expense;
    assert o1.table.rows[e1.id] == e1;
    var o2 := Store(o1.table, b, req);
    var e2 := o2.response.expense;
    assert o2.table.rows[e1.id] == e1;
    assert o2.table.rows[e2.id] == e2;
  }

  /** Store keeps every user's titles distinct. */
  lemma StorePreservesTitleUniqueness(t: Table, caller: UserId, req: Request)
    requires Valid(t) && TitlesUniquePerUser(t)
    ensures TitlesUniquePerUser(Store(t, caller, req).table)
  {
  }

  /** Destroy keeps every user's titles distinct. */
  lemma DestroyPreservesTitleUniqueness(t: Table, caller: UserId, id: ExpenseId)
    requires TitlesUniquePerUser(t)
    ensures TitlesUniquePerUser(Destroy(t, caller, id).table)
  {
  }

  /** Update does not re-check titles: renaming one of a user's two rows
      to the other's title succeeds and leaves the user with two rows of
      the same title. */
  lemma UpdateMayDuplicateTitle()
    ensures var rent := Expense(1, 7, "Rent", 90000, 19723, None, None);
      var food := Expense(2, 7, "Food", 4250, 19727, Some("groceries"), None);
      var t := Table(map[1 := rent, 2 := food], 3);
      var req := Request(Given("Rent"), Given(4250), Given(19727), Omitted, Omitted);
      var o := Update(t, 7, 2, req);
      && Valid(t) && TitlesUniquePerUser(t)
      && o.response == Ok(food.(title := "Rent"))
      && !TitlesUniquePerUser(o.table)
  {
    var rent := Expense(1, 7, "Rent", 90000, 19723, None, None);
    var food := Expense(2, 7, "Food", 4250, 19727, Some("groceries"), None);
    var t := Table(map[1 := rent, 2 := food], 3);
    var req := Request(Given("Rent"), Given(4250), Given(19727), Omitted, Omitted);
    assert !Blank("Rent") by { assert !TrimStrips("Rent"[0]); }
    var o := Update(t, 7, 2, req);
    assert o.table.rows[1].title == o.table.rows[2].title;
  }

  /** Update overwrites the one owned row: show returns the new record,
      and every other id answers every user as before. */
  lemma UpdateThenShow(t: Table, caller: UserId, id: ExpenseId, req: Request)
    ensures var o := Update(t, caller, id, req);
      o.response.Ok? ==>
        && Show(o.table, caller, id) == o.response
        && (forall u, j :: j != id ==> Show(o.table, u, j) == Show(t, u, j))
        && (forall u :: OwnedBy(o.table.rows, u, id) <==> OwnedBy(t.rows, u, id))
  {
  }

  /** After a successful destroy the id answers not-found to show, update
      and destroy, for every user, and index no longer lists the row. */
  lemma DestroyThenGone(t: Table, caller: UserId, id: ExpenseId, req: Request)
    requires Valid(t)
    ensures var o := Destroy(t, caller, id);
      o.response == Deleted ==>
        && (forall u :: Show(o.table, u, id) == NotFound)
        && Update(o.table, caller, id, req) == Outcome(NotFound, o.table)
        && Destroy(o.table, caller, id) == Outcome(NotFound, o.table)
        && t.rows[id] !in Index(o.table, caller)
        && (forall u, j :: j != id ==> Show(o.table, u, j) == Show(t, u, j))
  {
  }

  /** A table whose only row is e lists e for its owner and nothing for
      anyone else. */
  lemma SingleRowIndex(t: Table, e: Expense, other: UserId)
    requires Valid(t) && t.rows == map[e.id := e] && other != e.userId
    ensures Index(t, e.userId) == [e]
    ensures Index(t, other) == []
  {
    var listed := Index(t, e.userId);
    assert OwnedBy(t.rows, e.userId, e.id);
    assert e in listed;
  }

  /** The walk-through of the expense API: user 1 creates "Groceries",
      sees it listed, deletes it, and can no longer read it. */
  lemma GroceriesWalkThrough()
    ensures var req := Request(Given("Groceries"), Given(4250), Given(19727), Omitted, Omitted);
      var created := Store(Empty, 1, req);
      var e := Expense(1, 1, "Groceries", 4250, 19727, None, None);
      var deleted := Destroy(created.table, 1, 1);
      && created.response == Created(e)
      && Index(created.table, 1) == [e]
      && Index(created.table, 2) == []
      && Show(created.table, 2, 1) == NotFound
      && deleted.response == Deleted
      && Show(deleted.table, 1, 1) == NotFound
  {
    var req := Request(Given("Groceries"), Given(4250), Given(19727), Omitted, Omitted);
    assert !Blank("Groceries") by { assert !TrimStrips("Groceries"[0]); }
    var created := Store(Empty, 1, req);
    var e := Expense(1, 1, "Groceries", 4250, 19727, None, None);
    assert created.table.rows == map[1 := e];
    SingleRowIndex(created.table, e, 2);
  }
}
