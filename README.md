# ironkey-api user store, modelled in Dafny

This project models the user directory behind the ironkey-api HTTP service.
It covers two parts:

- the MySQL-backed `MySQLDataStore` of `sql/sql.go`, with the `Users` table
  replaced by an in-memory sequence of rows kept in table order;
- the gin request handlers of `handlers/handlers.go`, as methods that take
  the store and a bound request and return a status code and a body.

Modules, one file each:

- `Users` (`users.dfy`): the value types `User`, `RedactedUser`,
  `GetUsersResult`, `AddUserRequest`, `UpdateUserRequest`, Go's zero values
  and redaction.
- `SqlLike` (`like.dfy`): the SQL `LIKE` operator with its `%` and `_`
  wildcards, and the `%value%` pattern Search builds.
- `Table` (`table.dfy`): what each SQL statement of the store computes, as
  functions of the row sequence, and the lemmas about them. This covers the
  unique keys on email and id, first match, delete, update, `COUNT(id)`,
  `LIMIT 10 OFFSET`, and search.
- `Sql` (`sql.dfy`): the class `MySQLDataStore`. Its field `rows` holds the
  table and its `const hash` is the password hash function. `Valid()` says
  the unique keys hold, and every method keeps it.
- `Handlers` (`handlers.dfy`): the six handlers, the binding rules of the
  request structs' `binding` tags, and two end-to-end client scenarios.

Opaque parts become parameters:

- The bcrypt hash is the store's `hash: string -> string`.
- The e-mail format check of gin's `email` tag is `isEmail: string -> bool`.
- The id and creation time the database generates on insert are the
  parameters `newId` and `newCreatedAt` of `AddUser`.
- A request body or query is given as the value it decodes to, with `None`
  when it does not decode.

Behaviour of the Go code worth knowing:

- Searching for the empty value matches every row, because `%%` matches any
  string.
- A POST /user body that fails to bind gets 400. gin's `BindJSON` aborts
  with 400 and writes that status at once, so the `c.Status(500)` after it
  (handlers/handlers.go:15-16) has no effect.
- GET /user answers without the user's notes (`Notes` is never copied).
- MySQL reports the rows an UPDATE *changed* as affected. This is the
  go-sql-driver default; the connection string does not set
  `clientFoundRows`. So a PATCH that re-sends the stored values gets `false`
  from the store and 500 from the handler.
- Deleting with the email of one user and the id of another removes both
  rows and answers 500 (`DeleteTwoUsersScenario`). The unique keys do not
  rule this case out.

## Model

| member | source | states |
|---|---|---|
| `Users.RedactForgetsOnlyPassword` | sql/sql.go:31-38 | two rows have equal redacted views exactly when they agree on every column except the password hash |
| `SqlLike.WrappedIsSubstring` | sql/sql.go:329-339 | for a value with no `%` or `_`, the pattern `%value%` matches a string exactly when the value occurs in it as a substring |
| `SqlLike.ContainedMatchesWrapped` | sql/sql.go:329-339 | a string that contains the value matches `%value%`, for every value, wildcards included |
| `SqlLike.EmptyValueMatchesAll` | sql/sql.go:336 | the pattern built from the empty value matches every string |
| `Table.FirstMatch` | sql/sql.go:233-240 | returns no position exactly when no row satisfies `email = ? OR id = ?`; otherwise a position whose row matches and before which no row matches |
| `Table.Lookup` | sql/sql.go:232-249 | with no matching row the answer is the zero user; otherwise it is the first row in table order that matches |
| `Table.LookupAppended` | sql/sql.go:150 | reading back by email after inserting a row whose email no old row had returns the inserted row |
| `Table.InsertKeepsKeys` | sql/sql.go:132-137 | when the pre-check found no row, appending a row keeps both unique keys exactly when its id is not already in use |
| `Table.Without` | sql/sql.go:176-182 | the rows left by the delete are never longer than the table, and a row is among them exactly when it was in the table and did not match email-or-id |
| `Table.WithoutAppend` | sql/sql.go:176-182 | the delete keeps the remaining rows in table order: on a table made of two parts it leaves what is left of the first part followed by what is left of the second |
| `Table.MatchCount` | sql/sql.go:188-205 | the removed count plus the rows left equals the table size; it is zero exactly when no row matches |
| `Table.WithoutNoMatch` | sql/sql.go:170-174 | a delete that matches nothing leaves the table exactly as it was |
| `Table.WithoutKeepsKeys` | sql/sql.go:176-182 | deleting rows keeps email and id unique |
| `Table.UpdateTouchesFourColumns` | sql/sql.go:301-308 | the update keeps every row's id, creation time and password hash; a row whose id differs from the request's id is unchanged; the targeted row gets the request's email, first name, last name and notes |
| `Table.UpdateKeepsIds` | sql/sql.go:301-308 | the update keeps ids unique |
| `Table.ChangedCount` | sql/sql.go:313-323 | the affected count is at most the table size, and zero exactly when no row with the id would change |
| `Table.ChangedCountAtMostOne` | sql/sql.go:313-323 | with unique ids the update changes at most one row, and exactly one when some row with that id has a column the request changes |
| `Table.CountWithId` | sql/sql.go:251-263 | `COUNT(id)` is at most the number of rows, and equals it exactly when every row has an id |
| `Table.CountWithIdIsIdPositions` | sql/sql.go:253 | the count equals the number of table positions whose row has an id |
| `Table.PageShape` | sql/sql.go:267 | a page holds at most 10 users, namely the rows from the offset on in table order, redacted; its length is `min(10, rows - offset)`, or 0 from the end on |
| `Table.PagesCoverTable` | sql/sql.go:265-297 | reading pages from offset 0 in steps of 10 to the end yields every user once in table order; when every row has an id, the number read equals the total count |
| `Table.SearchRows` | sql/sql.go:329-353 | every matching row's redacted view is in the result; every result is the redacted view of a matching row; the result is no longer than the table |
| `Table.SearchRowsAppend` | sql/sql.go:346-353 | search keeps table order: searching a table made of two parts gives the first part's results followed by the second part's |
| `Table.SearchEmptyReturnsAll` | sql/sql.go:336-339 | searching for the empty value returns every user, redacted, in table order |
| `Table.SearchFindsSubstring` | sql/sql.go:329-339 | a user one of whose six searched columns (email, id, password hash, first name, last name, creation time) contains the value is among the results of searching for it, for every value |
| `Sql.MySQLDataStore.UserExists` | sql/sql.go:208-230 | true exactly when some row has the given email or the given id |
| `Sql.MySQLDataStore.GetUser` | sql/sql.go:232-249 | answers the first matching row, password hash included, or the zero user (no id) when none matches |
| `Sql.MySQLDataStore.AddUser` | sql/sql.go:113-167 | an email already present (or an empty id in use) gives `EmailExists`; a taken id gives `DuplicateKey`; on either error the table is unchanged and the answer is the empty user. Otherwise exactly one row is appended, holding the given email, names and notes, `hash(password)`, and the new id and creation time; the answer is that row redacted. The keys stay unique. |
| `Sql.MySQLDataStore.DeleteUser` | sql/sql.go:169-206 | the new table is the old one without every row matching email-or-id (unchanged when none matches); the result is true exactly when one row was removed; the keys stay unique |
| `Sql.MySQLDataStore.GetTotalUserCount` | sql/sql.go:251-263 | the number of table positions whose row has an id |
| `Sql.MySQLDataStore.GetUsers` | sql/sql.go:265-298 | the users are the page at the offset, redacted, and the total is the number of rows with an id, whatever the offset |
| `Sql.MySQLDataStore.UpdateUser` | sql/sql.go:300-325 | when the result keeps emails unique, the table becomes the updated one and the result is true exactly when one row changed; otherwise nothing changes and the result is false; the keys stay unique |
| `Sql.MySQLDataStore.Search` | sql/sql.go:327-357 | the result is the redacted view of every row, in table order, that one of the six searched columns lets `%value%` match |
| `Handlers.AddUser` | handlers/handlers.go:11-37 | a body that fails to bind gives 400 (gin's `BindJSON` has already written it) and the table is unchanged; an email or id conflict gives 409 and the table is unchanged; otherwise the new row is appended and the answer is 200 with that row's redacted view |
| `Handlers.DeleteUser` | handlers/handlers.go:39-70 | a query that fails to bind, or one with neither email nor id, gives 400 and the table is unchanged; otherwise the matching rows are deleted and the answer is 200 when exactly one went, else 500 |
| `Handlers.GetUser` | handlers/handlers.go:72-106 | a query that fails to bind, or one with neither email nor id, gives 400; a looked-up user with no id gives 404; otherwise 200 with email, id, creation time and names of the first matching row; a 200 body never carries notes |
| `Handlers.GetUsers` | handlers/handlers.go:108-129 | a missing offset or one outside 0..1000 gives 400; otherwise 200 with the page and the total, or with an empty object when the page is empty |
| `Handlers.UpdateUser` | handlers/handlers.go:131-156 | a body that fails to bind gives 400 and the table is unchanged; otherwise 200 when the store changed exactly one row, else 500, with the table as the store left it |
| `Handlers.Search` | handlers/handlers.go:158-170 | always 200, with a JSON array of the redacted users that `%value%` matches, empty when none does |
| `Handlers.AddGetDeleteScenario` | handlers/handlers.go:11-106 | on an empty table: adding a user gives 200 with its email and new id; adding it again gives 409; reading it gives 200 with the same id; deleting it gives 200; reading it again gives 404 |
| `Handlers.DeleteTwoUsersScenario` | handlers/handlers.go:59-67 | a delete given one user's email and another user's id removes both rows and answers 500 |

## Left out

- `InitDB`, the connection pool settings and the `sync.Once` guard (sql/sql.go:89-107): connection set-up and concurrency. The model's store is built by a constructor over an existing table.
- `GetDataStore` (sql/sql.go:75-83), `src/main.go` (routing, CORS, bootstrap) and all `fmt` logging: no logic to model.
- Every `log.Fatal` branch on prepare, scan and rows-affected failures: these do not arise over an in-memory table.
- `Sql.MySQLDataStore.UpdateUser`: an update that would give two rows the same email fails `Exec`, and sql.go then ends the process with `log.Fatal` (sql/sql.go:309-311). The model has the unique key refuse the statement: nothing changes and the result is false, so the handler answers 500.
- `Sql.MySQLDataStore.AddUser`: insert errors other than a duplicate key (sql/sql.go:139-141), and the zero-rows-affected branch (sql/sql.go:160-161), are not modelled. The model's table has no column constraints besides its two keys.
- `Sql.MySQLDataStore.DeleteUser`: a failing `Exec` (sql/sql.go:183-186) is not modelled.
- `Sql.MySQLDataStore.GetUsers`: requires a non-negative offset. MySQL rejects a negative `OFFSET` and sql.go then calls `log.Fatal`; the only caller passes 0..1000.
- `Sql.MySQLDataStore.GetUser`: without `ORDER BY`, MySQL promises no order when the email and the id match two different rows. The model takes the first row in table order.
- The race between AddUser's existence check and its insert: concurrency. Only the sequential behaviour is modelled.
- The bcrypt hash (`hash/hash.go`): a fixed function of the plaintext. Its salt, its cost of 13, and its `log.Fatal` on failure are not modelled.
- JSON (un)marshalling and gin's binding: a decoded value or `None`. The `email` format rule is the parameter `isEmail`. `min`/`max` lengths count characters, as gin counts runes.
- Collation: MySQL's default collation compares case-insensitively. The model compares exactly, both in `LIKE` and in the `email = ?` of UserExists, GetUser and DeleteUser (sql/sql.go:210, 233, 176), and so does the unique key on email (`Matches`, `UniqueEmails`). In `LIKE`, `\` is an ordinary character. `CAST(createdAt AS CHAR)` is the stored string.
- Row order: none of the SELECTs has an `ORDER BY`, so MySQL promises no order for GetUser, GetUsers (`LIMIT 10 OFFSET ?`, sql/sql.go:267) or Search (sql/sql.go:329). The model assumes the scan order is insertion order: AddUser appends its row last. `PageShape`, `PagesCoverTable`, `SearchRowsAppend`, `WithoutAppend` and every "in table order" above rest on that assumption. InnoDB scans in primary-key order, which differs from insertion order when the generated ids do not increase.
- The id and creation time the database generates: they are parameters of `AddUser`.
- `Handlers.Search`: Go's nil slice versus `[]int{}` (JSON `null` versus `[]`) is not distinguished; both are an empty `UserList`.
