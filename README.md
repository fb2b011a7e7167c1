# Account repository and update validator

A Dafny model of the account store of `mon`.

The store keeps accounts in a relational table with the columns
`id, name, opened, closed, currency, deleted`. `closed` and `deleted` may be
NULL. A NULL `deleted` means the account is active. The model has two parts.

- **The postgres repository** (`pkg/storage/postgres/account.go`). The table
  is the field `rows: seq<Row>` of class `Postgres.Postgres`, and `nextId`
  stands for the id sequence. Each SQL statement is modelled by what it
  means over the table:
  - select-all keeps the rows with `deleted IS NULL`, ordered by id;
  - select-one adds `id = $1`, and the result must be exactly one row;
  - insert appends a row with a fresh id and returns it;
  - update overwrites name, opened, closed and currency of the rows with that
    id and returns them;
  - the soft delete stamps `deleted` on the rows with that id and succeeds
    only when exactly one row was affected.

  Rows returned by a statement are decoded by `scanRowsForAccounts`, which is
  the loop method `Rows.ScanRows`. If any row fails to decode, the whole scan
  fails with that row's error and no accounts. `queryAccount` is
  `Rows.QueryAccount`.
- **The update validator** (`internal/model/account.go`). `Model.UpdateAccount`
  checks every balance already stored for the account against the *proposed*
  account. Only when all of them pass does it run the repository's update.

The accounting and money libraries are not part of this model:
`currency.NewCode`, `account.New`, `account.CloseTime`, `storage.DeletedAt`
and `Account.ValidateBalance`. Each becomes a boolean function field of
`Domain.Library` that says whether the call succeeds. When a call succeeds,
the model assumes the value it builds carries exactly the fields it was
given. The wall clock (`time.Now()` in `DeleteAccount`) is the parameter
`now`. Times are integer ticks (see "## Left out").

The table is kept in ascending id order. This holds because ids come from a
sequence and inserts append. `TableValid` states it, and every method keeps
it. So `ORDER BY id ASC` is the order of the table. It also follows that at
most one row has a given id.

`opened` is a reserved word in Dafny, so the field is called `openedAt`.

## Behaviour worth noting

- A second delete of the same id affects the same row again and succeeds,
  because the delete statement's WHERE clause does not filter on `deleted`.
  It re-stamps `deleted` with the new time (`Postgres.DeleteAgainSucceeds`).
- The update statement does not filter on `deleted` either. Updating a
  soft-deleted row succeeds and returns the row with its `deleted` time
  (`Postgres.UpdateReturns`).
- A delete that affects 0 rows and one that affects more than 1 are reported
  by the same check on the affected-row count, `AffectedRows(n)`. A
  select-one that finds more than one row reports `TooManyAccounts(n)`.
  With unique ids the latter cannot happen (`Postgres.SelectOneNeverAmbiguous`).
- Insert writes the row before it decodes the `RETURNING` row. If that
  decoding fails, the call reports an error, but the row stays in the table.

## Model

| member | source | states |
|---|---|---|
| `Rows.DecodeRow` | pkg/storage/postgres/account.go:171-192 | A row decodes exactly when the code, the account, the close time (only when closed is non-NULL) and the deleted time (only when deleted is non-NULL) are all accepted by the library. A decoded account writes back to the same row, with closed and deleted set only from non-NULL columns. An unknown currency is reported as such. Every failure is one of the four decode kinds. |
| `Rows.DecodeToRow` | pkg/storage/postgres/account.go:159-192 | Row mapping is lossless: an accepted stored account decodes back from its own row. |
| `Rows.ScanOutcomeOk` | pkg/storage/postgres/account.go:159-195 | A scan result is a success exactly when every row decodes. |
| `Rows.DecodeAll` | pkg/storage/postgres/account.go:159-195 | A scan yields one account per row, in row order, or the error of the first row that fails and no accounts. |
| `Rows.DecodeAllOk` | pkg/storage/postgres/account.go:159-195 | A scan succeeds if and only if every row is accepted by the library. |
| `Rows.ScanRows` | pkg/storage/postgres/account.go:159-195 | The `for rows.Next()` loop keeps row order and appends one decoded account per row. It returns the first decode error with no accounts. Its result equals `DecodeAll`. |
| `Rows.QueryAccount` | pkg/storage/postgres/account.go:133-146 | Succeeds if and only if the scan succeeded with exactly one account, and then returns element 0. A scan error passes through. Zero accounts give `NoAccounts` and n > 1 give `TooManyAccounts(n)`. An account is never returned with an error. |
| `Rows.QuerySingleRow` | pkg/storage/postgres/account.go:133-146 | A statement that returns one row yields exactly that row's decoding. |
| `Postgres.Active` | pkg/storage/postgres/account.go:42-46 | `WHERE deleted IS NULL` keeps exactly the rows whose deleted is NULL, and keeps ascending id order. |
| `Postgres.Matching` | pkg/storage/postgres/account.go:53-56 | `WHERE id = $n` keeps exactly the rows with that id, and at most one of them when ids ascend. |
| `Rows.DecodedRows` | pkg/storage/postgres/account.go:159-195 | A successful scan has one account per row, and each account writes back to its row. |
| `Postgres.SelectAllOk` | pkg/storage/postgres/account.go:42-51 | Select-all succeeds if and only if every row whose deleted is NULL decodes. |
| `Postgres.SelectAllOrdered` | pkg/storage/postgres/account.go:48-51 | Select-all yields accounts in strictly ascending id order, none of them deleted, each decoded from a row of the table. |
| `Postgres.SelectAllComplete` | pkg/storage/postgres/account.go:42-46 | Every row whose deleted is NULL is represented in a successful select-all. |
| `Postgres.SelectOneFound` | pkg/storage/postgres/account.go:53-56 | Select-one for the id of an active row yields that row's decoding. |
| `Postgres.SelectOneNotFound` | pkg/storage/postgres/account.go:139-141 | When no active row has the id, select-one fails with `NoAccounts`. |
| `Postgres.SelectOneNeverAmbiguous` | pkg/storage/postgres/account.go:142-144 | With unique ids, select-one never fails with `TooManyAccounts`, so that check is defensive. |
| `Postgres.SelectOneResult` | pkg/storage/postgres/account.go:90-93 | A successful select-one returns an account with the requested id that is not deleted and was decoded from a row of the table. |
| `Postgres.InsertValid` | pkg/storage/postgres/account.go:58-62 | Appending a row with the next id keeps ids ascending, positive and below the next sequence value. |
| `Postgres.InsertThenSelect` | pkg/storage/postgres/account.go:96-99 | Round trip: after inserting an accepted account, select-one for the new id returns that account with that id, not deleted. |
| `Postgres.UpdateFrame` | pkg/storage/postgres/account.go:64-72 | An update changes only name, opened, closed and currency of the rows with that id. Their id and deleted stay, every other row is unchanged, and the table stays valid. |
| `Postgres.UpdateUnknown` | pkg/storage/postgres/account.go:102-112 | Updating an id no row has writes nothing and fails with `NoAccounts`. |
| `Postgres.UpdateReturns` | pkg/storage/postgres/account.go:102-112 | Updating an existing row, deleted or not, returns the decoding of that row with the four columns overwritten. |
| `Postgres.UpdateThenSelect` | pkg/storage/postgres/account.go:102-112 | After updating an active row to an accepted account u, select-one for that id returns u under that id. |
| `Postgres.DeleteFrame` | pkg/storage/postgres/account.go:74-79 | A soft delete keeps every row. It sets deleted to `now` on the rows with that id, changes nothing else, and keeps the table valid. |
| `Postgres.DeleteCount` | pkg/storage/postgres/account.go:115-128 | The affected-row count is at most 1. It is 1 exactly when a row with that id exists, whether or not that row is already deleted. |
| `Postgres.DeleteThenSelect` | pkg/storage/postgres/account.go:115-128 | After a soft delete of id, select-one for id fails with `NoAccounts`, and select-all holds no account with that id. |
| `Postgres.DeleteAgainSucceeds` | pkg/storage/postgres/account.go:74-79 | Because the WHERE clause does not filter on deleted, a second delete of the same id again affects exactly one row. |
| `Postgres.DeleteUnknown` | pkg/storage/postgres/account.go:124-126 | Deleting an unknown id changes nothing and affects 0 rows. |
| `Postgres.Postgres.SelectAccounts` | pkg/storage/postgres/account.go:85-87 | Returns select-all: exactly the rows whose deleted is NULL, decoded, in strictly ascending id order. Succeeds exactly when every active row decodes. |
| `Postgres.Postgres.SelectAccount` | pkg/storage/postgres/account.go:90-93 | Returns select-one: the decoding of the active row with the id. Fails with `NoAccounts` when there is none, and never with `TooManyAccounts`. |
| `Postgres.Postgres.InsertAccount` | pkg/storage/postgres/account.go:96-99 | Appends one row with a fresh id and the given name, opened, closed and currency, with deleted NULL. Returns that row's decoding, which is exactly the given account under the new id when the library accepts it. |
| `Postgres.Postgres.UpdateAccount` | pkg/storage/postgres/account.go:102-112 | The new table is the old one with the four columns of the rows with that id overwritten. It returns the single returned row. An unknown id writes nothing and fails with `NoAccounts`. A success carries the id and exactly the proposed account. |
| `Postgres.Postgres.DeleteAccount` | pkg/storage/postgres/account.go:115-128 | Stamps deleted with `now` on the rows with that id. Succeeds if and only if a row with that id exists (exactly one row affected). Otherwise it reports `AffectedRows(n)`. |
| `Model.UpdateAccount` | internal/model/account.go:14-29 | A failed balance lookup is passed on with nothing written. If any balance fails validation against the proposed account, the call fails naming the first such balance, and the store is unchanged. A nil or empty list passes. When all pass, the result and new table are exactly the repository update for `a.id` with the proposed account. |

## Left out

- Transport and backend failures are not modelled: `db.Query`, `db.Exec`,
  `RowsAffected`, `rows.Scan` and `rows.Err`. The model has no connection,
  so every statement runs. Closing the rows, `Available` and `Close` are also
  out.
- The SQL text, its construction with `fmt.Sprintf`, and the `database/sql`
  and `pq` driver are not modelled. Each statement is modelled by its
  meaning over the table.
- The accounting and money libraries are abstract. They are boolean fields
  of `Domain.Library`. Their real rules, and any normalisation they do to
  the values they build, are not modelled.
- Error message texts and the `errors.Wrap` chains are not modelled. Only
  the distinct error kinds are.
- The check-then-act race in `Model.UpdateAccount` is not modelled.
  Balances could be inserted between the lookup and the update. The model is
  single-threaded.
- Model.UpdateAccount: the balance lookup `SelectAccountBalances` and
  balance insertion belong to the balance repository, which is not part of
  this model. The validator therefore takes the lookup's outcome as the
  parameter `bs`. Its contract does not relate `bs` to the stored balances.
- The `storage.Storage` interface is not modelled, because of that
  interface's polymorphism. The validator works over the postgres
  repository class.
- The id column's type and width, and the `uint` width of ids in Go, are
  not modelled. Ids are unbounded naturals.
- Column constraints of the table, such as NOT NULL, do not appear in the
  source and are not modelled.
- Timestamp precision and time zones are not modelled. Times are exact
  integer ticks. A Postgres timestamp column keeps microseconds and may come
  back in another zone, while Go's `time.Time` has nanoseconds and a
  location. So the exact round trips of `Postgres.Postgres.InsertAccount`,
  `Postgres.InsertThenSelect` and `Postgres.UpdateThenSelect` hold for the
  model's times, not for every `time.Time` value.
- How the repository is built from a connection string is not modelled
  (`postgres.New` is not part of this model). The constructors take an empty
  or existing valid table instead.
- The HTTP client (`client/`) and the server wiring (`cmd/monserve`) are not
  part of the core.
