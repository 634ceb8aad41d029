# Expense store of the expense-tracker backend, in Dafny

This project models the expense controller of a small personal-finance
backend. Each authenticated user keeps their own list of expense records
and can list, create, read, update and delete them. Every action is
scoped to the caller. Another user's record behaves exactly like a
missing one. A title may be used only once per user, though two users
may use the same title. The list comes back newest date first.

The model has four files:

- `expense.dfy` (module `Expenses`) defines the expense record and the
  request body. A body field is either left out, sent as null or sent
  with a value. The file also holds the validation rules that store and
  update share, and the responses: `Ok`, `Created`, `Deleted`,
  `NotFound`, `DuplicateTitle` and `Invalid`.
- `store.dfy` (module `ExpenseStore`) treats the expenses table as a
  value: a map from primary key to row, plus the auto-increment counter.
  The five actions are functions on that table. `Store`, `Update` and
  `Destroy` return the response together with the table they leave
  behind.
- `properties.dfy` (module `StoreProperties`) holds the lemmas relating
  several actions. They cover the ownership filter, per-user title
  uniqueness, round trips, and the fact that one user's actions cannot
  be seen by another user.
- `controller.dfy` (module `Controllers`) holds the class
  `ExpenseController`. It owns the table as fields and changes them in
  place. `Index` and `Show` are functions that read the object. `Store`,
  `Update` and `Destroy` are methods that modify it. Each method is
  proved equal to the reference function of the same name, and its
  contract also states the new table directly.

Modelling choices:

- The caller's id is an explicit argument. It replaces the framework's
  ambient "current user".
- Dates are day numbers (`int`), since only their order matters.
  Amounts are `int` minor units, not decimals.
- Inputs arrive already typed. Store and update apply the same rules:
  - `title` must be present, not blank and at most 255 characters.
    "Blank" means made only of the characters PHP's `trim` strips.
  - `amount` and `date` must be present.
  - `category` must be absent, null, made only of characters `trim` strips, or at most 255 characters.
  - `notes` accepts any value.
- Validated data keeps only the keys present in the request. An omitted
  `category` or `notes` is therefore null in a new row, and an update
  that omits it leaves the old value. An explicit null clears it.
- `orderBy('date', 'desc')` is a stable insertion sort over the caller's
  rows taken in ascending id order. Rows with the same date therefore
  come in id order. SQL leaves that tie order open; this model fixes it.
- Update does not re-check title uniqueness, exactly as the code does.
  `UpdateMayDuplicateTitle` shows an update that leaves one user with
  two rows of the same title. Store and destroy keep titles unique per
  user.

## Model

| member | source | states |
|---|---|---|
| `Expenses.LengthBoundary` | app/Http/Controllers/Expenses/ExpenseController.php:109-115 | the 255-character bound is inclusive for title and category: 255 characters pass, 256 are rejected; notes of any length pass; a 256-character category of spaces passes, because `max` is not applied to a whitespace-only string |
| `Expenses.NewExpense` | app/Http/Controllers/Expenses/ExpenseController.php:61 | the row `Expense::create` inserts: the given id, the caller as owner, the validated title, amount and date, and nullable fields stored as sent or null |
| `Expenses.Overwritten` | app/Http/Controllers/Expenses/ExpenseController.php:118 | the new value of a nullable column on update: kept when the key is omitted, cleared by null, otherwise the sent value |
| `Expenses.OverwrittenUnlessOmitted` | app/Http/Controllers/Expenses/ExpenseController.php:118 | an update keeps a nullable column only when its key is omitted; otherwise the column gets the value store would have written |
| `Expenses.Apply` | app/Http/Controllers/Expenses/ExpenseController.php:118 | the row `$expense->update` leaves: new title, amount and date, nullable fields per `Overwritten`, id and owner unchanged |
| `Expenses.ApplyIdempotent` | app/Http/Controllers/Expenses/ExpenseController.php:118 | updating twice with one body equals updating once, and an update keeps the id and the owner |
| `Expenses.UpdateWithSameBodyIsNoOp` | app/Http/Controllers/Expenses/ExpenseController.php:61-118 | updating a freshly created row with the body it was created from changes nothing |
| `ExpenseStore.OwnedBy` | app/Http/Controllers/Expenses/ExpenseController.php:77-79 | the lookup `where('id', id)->where('user_id', caller)` shared by show, update and destroy: the id is a key of the table and its row's owner is the caller |
| `StoreProperties.OwnedByIffListed` | app/Http/Controllers/Expenses/ExpenseController.php:77-79 | the lookup finds an id exactly when that caller's index lists a record with that id |
| `ExpenseStore.TitleTaken` | app/Http/Controllers/Expenses/ExpenseController.php:51-53 | the duplicate query: some row owned by the caller has exactly this title |
| `StoreProperties.TitleTakenIffListed` | app/Http/Controllers/Expenses/ExpenseController.php:51-53 | the duplicate query finds a row exactly when the caller's index lists an expense with that title |
| `ExpenseStore.OwnedBelow` | app/Http/Controllers/Expenses/ExpenseController.php:23 | the scan returns only the caller's rows, each stored under its own key; every owned row below the bound is included; ids strictly increase |
| `ExpenseStore.InsertByDate` | app/Http/Controllers/Expenses/ExpenseController.php:24 | inserting into a date-descending list keeps it date-descending; the result is the input plus the new element (as a multiset); it repeats nothing if the input repeated nothing |
| `ExpenseStore.SortByDateDesc` | app/Http/Controllers/Expenses/ExpenseController.php:24 | the result is ordered by non-increasing date; it is a permutation of the input; it repeats no element if the input repeated none |
| `ExpenseStore.Index` | app/Http/Controllers/Expenses/ExpenseController.php:17-28 | the list holds exactly the rows whose owner is the caller, each listed once, in non-increasing date order |
| `ExpenseStore.Show` | app/Http/Controllers/Expenses/ExpenseController.php:72-86 | `Ok` with the stored row exactly when the id exists and the caller owns it; otherwise the single answer `NotFound` |
| `ExpenseStore.Store` | app/Http/Controllers/Expenses/ExpenseController.php:36-64 | an invalid body gives `Invalid` and a title the caller already uses gives `DuplicateTitle`, both with the table unchanged; otherwise `Created`. The new row has a fresh id (the old counter) and the caller as owner; its fields are the validated input; it is the only row added, and the validity of the table is kept |
| `ExpenseStore.Update` | app/Http/Controllers/Expenses/ExpenseController.php:95-121 | a row the caller does not own gives `NotFound` with the table unchanged, even when the body is invalid; an owned row with an invalid body gives `Invalid`, table unchanged. Otherwise `Ok`, and only that row changes: same id and owner, new title, amount and date; omitted nullable fields are kept and null ones cleared |
| `ExpenseStore.Destroy` | app/Http/Controllers/Expenses/ExpenseController.php:129-146 | `Deleted` exactly when the caller owns the id; then only that key leaves the table and every other row is unchanged; otherwise `NotFound` with the table unchanged |
| `StoreProperties.OwnedBelowAgree` | app/Http/Controllers/Expenses/ExpenseController.php:23 | two tables holding the same rows for the caller give the same owned-row scan |
| `StoreProperties.OwnedBelowPast` | app/Http/Controllers/Expenses/ExpenseController.php:23 | scanning past the last key adds no row |
| `StoreProperties.IndexDependsOnlyOnOwnRows` | app/Http/Controllers/Expenses/ExpenseController.php:23-25 | the list depends only on the caller's own rows |
| `StoreProperties.TitleTakenAgree` | app/Http/Controllers/Expenses/ExpenseController.php:51-53 | the duplicate-title query depends only on the caller's own rows |
| `StoreProperties.ResponsesDependOnlyOnOwnRows` | app/Http/Controllers/Expenses/ExpenseController.php:20-140 | two tables holding the same rows for the caller, with the same counter, give the caller the same response to every index, show, store, update and destroy |
| `StoreProperties.OthersRowsInvisible` | app/Http/Controllers/Expenses/ExpenseController.php:77-83 | deleting another user's row from the table changes no response to the caller |
| `StoreProperties.ForeignLikeMissing` | app/Http/Controllers/Expenses/ExpenseController.php:100-106 | show, update and destroy on another user's id give the same `NotFound` outcome as on an id that does not exist, and change nothing |
| `StoreProperties.StoreInvisibleToOthers` | app/Http/Controllers/Expenses/ExpenseController.php:48-61 | a store by one user leaves every other user's rows and list unchanged |
| `StoreProperties.UpdateInvisibleToOthers` | app/Http/Controllers/Expenses/ExpenseController.php:100-118 | an update by one user leaves every other user's rows and list unchanged |
| `StoreProperties.DestroyInvisibleToOthers` | app/Http/Controllers/Expenses/ExpenseController.php:134-143 | a destroy by one user leaves every other user's rows and list unchanged |
| `StoreProperties.BadBodiesRejected` | app/Http/Controllers/Expenses/ExpenseController.php:39-45 | a body with a missing, null, blank (only trimmable characters) or over-long title, an over-long category that is not all whitespace, or a missing or null amount or date gets `Invalid` from store and from an update of an owned row; the table is unchanged |
| `StoreProperties.GoodBodiesAccepted` | app/Http/Controllers/Expenses/ExpenseController.php:39-45 | the converse of the rejection rules: a sent title with a character `trim` keeps and at most 255 characters, a sent amount and date, and a category that is null, omitted, all whitespace or at most 255 characters, pass validation whatever the notes hold; store then gives `Created` or `DuplicateTitle`, and an update of an owned row gives `Ok` |
| `StoreProperties.StoreThenShow` | app/Http/Controllers/Expenses/ExpenseController.php:61-85 | after a successful store, show of the new id by the same caller returns the created record, and index lists it |
| `StoreProperties.TitleUniquenessIsPerUser` | app/Http/Controllers/Expenses/ExpenseController.php:51-58 | one body stored by two different users succeeds for both; storing it again as either user gives `DuplicateTitle` and leaves the table unchanged |
| `StoreProperties.StorePreservesTitleUniqueness` | app/Http/Controllers/Expenses/ExpenseController.php:50-61 | if no user owns two rows with the same title, the same holds after any store |
| `StoreProperties.DestroyPreservesTitleUniqueness` | app/Http/Controllers/Expenses/ExpenseController.php:142-143 | if no user owns two rows with the same title, the same holds after any destroy |
| `StoreProperties.UpdateMayDuplicateTitle` | app/Http/Controllers/Expenses/ExpenseController.php:108-118 | an update renaming one of a user's rows to the title of another of their rows succeeds, and leaves two rows with that title |
| `StoreProperties.UpdateThenShow` | app/Http/Controllers/Expenses/ExpenseController.php:117-120 | after a successful update, show returns the updated record; every other id answers every user as before; the row's owner did not change |
| `StoreProperties.DestroyThenGone` | app/Http/Controllers/Expenses/ExpenseController.php:134-145 | after a successful destroy, the id gives `NotFound` to show for every user and to update and destroy by the caller; index no longer lists the row; every other id answers as before |
| `StoreProperties.SingleRowIndex` | app/Http/Controllers/Expenses/ExpenseController.php:23-25 | a table whose only row is e lists exactly [e] for e's owner and nothing for anyone else |
| `StoreProperties.GroceriesWalkThrough` | app/Http/Controllers/Expenses/ExpenseController.php:61-85 | on an empty table, user 1 creates "Groceries" and gets id 1. User 1's list is that one record; user 2 sees an empty list and `NotFound`. User 1 deletes it and can no longer read it |
| `Controllers.ExpenseController.constructor` | app/Http/Controllers/Expenses/ExpenseController.php:10-11 | the controller starts over an empty, valid table whose counter is 1 |
| `Controllers.ExpenseController.Index` | app/Http/Controllers/Expenses/ExpenseController.php:17-28 | lists exactly the caller's rows of the object's table, each once, newest date first |
| `Controllers.ExpenseController.Show` | app/Http/Controllers/Expenses/ExpenseController.php:72-86 | `Ok` with the stored row exactly when the caller owns the id, otherwise `NotFound` |
| `Controllers.ExpenseController.Store` | app/Http/Controllers/Expenses/ExpenseController.php:36-64 | agrees with `ExpenseStore.Store` on the response and the new table; on `Created`, adds exactly one row under a key that was not in use (the old counter), owned by the caller, and advances the counter; otherwise the fields are unchanged |
| `Controllers.ExpenseController.Update` | app/Http/Controllers/Expenses/ExpenseController.php:95-121 | agrees with `ExpenseStore.Update`; on `Ok`, only the row under `id` is replaced, keeping its id and the caller as owner; otherwise the table is unchanged; the counter never moves |
| `Controllers.ExpenseController.Destroy` | app/Http/Controllers/Expenses/ExpenseController.php:129-146 | agrees with `ExpenseStore.Destroy`; on `Deleted`, the caller owned the row and exactly that key is removed; otherwise `NotFound` with the table unchanged |

## Left out

- Login, logout and token issuance (`app/Http/Controllers/Auth/LoginController.php`) and the route table (`routes/api.php`) belong to the framework's auth service and router. They are not modelled. The resolved caller id is a parameter instead.
- JSON bodies and HTTP status codes are not modelled. Each response is a variant of `Response`, and its comment names the status it stands for.
- Parsing request strings into numbers and dates is not modelled, and neither is the `string` type rule. Inputs arrive typed.
- The framework's global request middleware (trimming strings, turning empty strings into null) sits outside the controller and is not modelled. A title made only of trimmable characters is still rejected, by the `required` rule itself. The validator applies only implicit rules such as `required` to a string that `trim` reduces to nothing, so a category made only of trimmable characters passes `string` and `max:255` whatever its length; the model accepts it as the controller does and stores it unchanged.
- Title comparison in the duplicate check is exact string equality. A database column with a case-insensitive collation would also match titles that differ only in letter case.
- `created_at` and `updated_at` timestamps are not modelled.
- The response from `Expense::create` shows only the attributes that were set. In the model, `Created` carries the full row, with null for omitted fields.
- The `App\Models\Expense` model and its mass-assignment list are not part of this model. The model assumes the five editable fields and `user_id` are all fillable.
- Concurrent requests are not modelled, for example two stores of one title racing between the duplicate check and the insert. Nor are transactions. Each action is one atomic step on the table.
- Ids are unbounded naturals. Auto-increment overflow and non-numeric route ids are not modelled.
- The order of listed rows that share a date is fixed here as ascending id. SQL leaves it unspecified, so no contract mentions it; the contracts state only the date order, membership and that no row repeats.
