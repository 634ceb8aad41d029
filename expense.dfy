/** Expense records, the request body that creates or edits one, the
    validation rules applied to that body, and the responses of the
    expense endpoints. */
module Expenses {

  datatype Option<T> = None | Some(value: T)

  type UserId = nat
  type ExpenseId = nat

  /** Amounts are whole minor units; dates are day numbers, so that the
      only thing the model needs of a date is its total order. */
  datatype Expense = Expense(
    id: ExpenseId,
    userId: UserId,
    title: string,
    amount: int,
    date: int,
    category: Option<string>,
    notes: Option<string>)

  /** One field of a request body: left out of the body altogether, sent
      as null, or sent with a value.  Validated data keeps only the keys
      that were present in the request, so Omitted and Null differ on
      update. */
  datatype Field<T> = Omitted | Null | Given(value: T)

  datatype Request = Request(
    title: Field<string>,
    amount: Field<int>,
    date: Field<int>,
    category: Field<string>,
    notes: Field<string>)

  datatype Response =
    | Ok(expense: Expense)        // 200 with the record
    | Created(expense: Expense)   // 201 with the new record
    | Deleted                     // 200 {message: "Expense deleted successfully"}
    | NotFound                    // 404 {message: "Expense not found"}
    | DuplicateTitle              // 422 {error: "An expense with this title already exists."}
    | Invalid                     // 422 {errors: ...}

  /** The `max:255` bound of the title and category rules. */
  const MaxLength: nat := 255

  /** The characters PHP's trim() strips: a string made only of these is
      "empty" for the `required` rule. */
  predicate TrimStrips(c: char) {
    c == ' ' || c == '\t' || c == '\n' || c == '\r' || c == '\0' || c == '\U{000B}'
  }

  predicate Blank(s: string) {
    forall k :: 0 <= k < |s| ==> TrimStrips(s[k])
  }

  /** `required|string|max:255` */
  predicate TitleOk(f: Field<string>) {
    f.Given? && !Blank(f.value) && |f.value| <= MaxLength
  }

  /** `required|numeric` and `required|date` on an already typed value */
  predicate Present<T>(f: Field<T>) {
    f.Given?
  }

  /** `nullable|string|max:255`.  The validator runs only implicit rules
      on a string that trim() reduces to nothing, so `max` never sees a
      category made only of trimmable characters. */
  predicate CategoryOk(f: Field<string>) {
    f.Given? && !Blank(f.value) ==> |f.value| <= MaxLength
  }

  /** The rule set shared by store and update; `notes` is
      `nullable|string` and so accepts every typed value. */
  predicate Validates(req: Request) {
    TitleOk(req.title) && Present(req.amount) && Present(req.date) && CategoryOk(req.category)
  }

  /** The value a nullable field takes in a newly created row: a column
      the request did not fill is null. */
  function Stored(f: Field<string>): Option<string>
  {
    if f.Given? then Some(f.value) else None
  }

  /** The value a nullable field takes when an existing row is updated:
      a key missing from the validated data leaves the column as it was,
      an explicit null clears it. */
  function Overwritten(f: Field<string>, was: Option<string>): Option<string>
  {
    match f
    case Omitted => was
    case Null => None
    case Given(s) => Some(s)
  }

  /** The row `Expense::create` inserts for validated data, the caller's
      id added as owner. */
  function NewExpense(id: ExpenseId, caller: UserId, req: Request): Expense
    requires Validates(req)
  {
    Expense(id, caller, req.title.value, req.amount.value, req.date.value,
            Stored(req.category), Stored(req.notes))
  }

  /** The row `$expense->update` leaves for validated data: the five
      editable fields change, the id and owner never do. */
  function Apply(e: Expense, req: Request): Expense
    requires Validates(req)
  {
    e.(title := req.title.value, amount := req.amount.value, date := req.date.value,
       category := Overwritten(req.category, e.category),
       notes := Overwritten(req.notes, e.notes))
  }

  /** The 255-character bound is inclusive, for the title and the category
      alike, the notes are unbounded, and a category of nothing but spaces
      escapes the bound. */
  lemma {:induction false} LengthBoundary(amount: int, date: int, notes: string)
    ensures var at := seq(MaxLength, _ => 'a');
      var over := seq(MaxLength + 1, _ => 'a');
      var spaces := seq(MaxLength + 1, _ => ' ');
      && Validates(Request(Given(at), Given(amount), Given(date), Given(at), Given(notes)))
      && !Validates(Request(Given(over), Given(amount), Given(date), Omitted, Given(notes)))
      && !Validates(Request(Given(at), Given(amount), Given(date), Given(over), Given(notes)))
      && Validates(Request(Given(at), Given(amount), Given(date), Given(spaces), Given(notes)))
  {
    var at := seq(MaxLength, _ => 'a');
    assert !TrimStrips(at[0]);
    var over := seq(MaxLength + 1, _ => 'a');
    assert !TrimStrips(over[0]);
  }

  /** Creating a row and then updating it with the same body changes
      nothing: store and update write the validated fields alike. */
  lemma UpdateWithSameBodyIsNoOp(id: ExpenseId, caller: UserId, req: Request)
    requires Validates(req)
    ensures Apply(NewExpense(id, caller, req), req) == NewExpense(id, caller, req)
  {
  }

  /** Updating twice with one body is updating once, and an update never
      changes the id or the owner. */
  lemma ApplyIdempotent(e: Expense, req: Request)
    requires Validates(req)
    ensures Apply(Apply(e, req), req) == Apply(e, req)
    ensures Apply(e, req).id == e.id && Apply(e, req).userId == e.userId
  {
  }

  /** An update leaves a nullable column as it was only when the body
      omits its key; otherwise the column takes what store would have
      written. */
  lemma OverwrittenUnlessOmitted(f: Field<string>, was: Option<string>)
    ensures Overwritten(f, was) == if f.Omitted? then was else Stored(f)
  {
  }
}
