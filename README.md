# User directory of fastapi-do-zero, modelled in Dafny

The course repository builds the same small user API lesson after lesson. It has
five handlers: create, list, update, delete, and list the unique usernames. This
project models the user store behind those handlers, in its two forms.

- **List-backed** (`codigos/aula_02_e_03`, `codigos/aulas_2_e_3`): a module-level
  list `db`. A user's id is `len(db) + 1` when it is created, and update and delete
  treat the id as a position in the list (`user_id - 1`). Module `MemoryStore`
  holds class `Directory`, whose field `db: seq<UserDB>` is changed in place by
  `CreateUser`, `UpdateUser` and `DeleteUser`.
- **Table-backed** (`codigos/aula_05`, `codigos/aula_05_2`): an ORM session over a
  `users` table. Module `TableRows` describes the table as a sequence of rows in
  table order, with positive, distinct ids (`WellFormed`). It also holds the
  queries and checks the handlers run on the table, and the lemmas about them.
  Module `TableStore` holds class `UserTable`, whose methods change `rows` the
  way `session.add`, the field assignments and `session.delete` do.

Shared parts: `Users` has the request body `UserSchema`, the stored record
`UserDB`, the public projection `UserPublic` (no password) and the `Error` values
the handlers raise. `Distinct` removes repeated values. `Messages` builds the
deletion confirmation `Usuário ID[{id}] deletado com sucesso.` and reads the id
back out of it. `Wrappers` has `Option` and `Result`.

Each handler that can fail returns a `Result`. `Success` carries the response body
after the framework's `response_model` projection, so no password is ever returned.
The list-backed create and both listings cannot fail, and return the projected
body itself.
`Failure` carries an `Error`: `NotFound`, `NoUsers`, `AlreadyExists` (aula_05_2,
either field), or `UsernameTaken` / `EmailTaken` (aula_05).

Lessons that share a handler share one member:

| handler | aula_02_e_03 | aulas_2_e_3 | aula_05_2 | aula_05 |
|---|---|---|---|---|
| create_user | `Directory.CreateUser` (:12-16) | same (:12-16) | `UserTable.CreateUser` (:21-49) | `UserTable.CreateUserByField` (:21-53) |
| read_users | `Directory.ReadUsers` (:19-21) | same (:19-21) | `UserTable.ReadUsers` (:52-59) | same (:56-62) |
| update_user | `Directory.UpdateUser` (:24-35) | same (:24-35) | `UserTable.UpdateUser` (:62-80) | same (:65-86) |
| delete_user | `Directory.DeleteUser` (:38-48) | same (:38-48) | `UserTable.DeleteUser` (:83-96) | same (:89-102) |
| get_unique_username | `Directory.UniqueUsernames` (:52-62) | absent | `UserTable.UsernamesPage` (:101-121) | `UserTable.DistinctUsernames` (:107-116) |

The two list-backed `app.py` files are line-for-line the same for create, read,
update and delete. In the two table-backed ones, read, update and delete differ
only in the order of the field assignments and in the wording of the not-found
detail.

### Behaviour of the code worth knowing

- List-backed ids are positions, not identities. Create takes the id from the
  list's length (`codigos/aula_02_e_03/fast_zero/app.py:14`), and delete closes
  the gap (`:46`). After a delete, the next create can hand out an id that a live
  record still holds (`MemoryStore.IdRepeatsAfterDelete`). Deleting id 1 twice
  can succeed twice (`MemoryStore.DeleteSameIdTwice`).
- Only the table-backed create checks usernames and emails, and it keeps them
  unique (`TableRows.InsertKeepsCredentialsUnique`). The list-backed create
  checks nothing. The table-backed update overwrites the fields without a check
  (`codigos/aula_05_2/fast_zero/app.py:74-76`), so it can put two rows with one
  username in the table (`TableRows.OverwriteCanDuplicateUsername`).
- aula_05_2's unique-usernames listing fails when the requested page is empty
  (`codigos/aula_05_2/fast_zero/app.py:108-117`). A non-empty table with a large
  `skip` therefore fails too (`UserTable.UsernamesPage`).

## Model

| member | source | states |
|---|---|---|
| `Users.PublicViewHidesPassword` | codigos/aula_04/tests/test_app.py:13-17 | two records look alike to a client exactly when id, username and email agree; changing the password never changes the public view |
| `Distinct.Dedup` | codigos/aula_02_e_03/fast_zero/app.py:59-61 | the result repeats no value, holds only values of the input, and holds every value of the input |
| `Distinct.DedupOfDistinct` | codigos/aula_05/fast_zero/app.py:109 | deduplicating a sequence without repeats returns it unchanged |
| `Distinct.DedupEmpty` | codigos/aula_05/fast_zero/app.py:109-114 | deduplication gives the empty list exactly when the input is empty, so "no distinct usernames" means "no users" |
| `Messages.NatDecimalRoundTrip` | codigos/aula_05/fast_zero/app.py:102 | reading back the decimal digits of a non-negative id gives that id |
| `Messages.IntDecimalRoundTrip` | codigos/aula_02_e_03/fast_zero/app.py:48 | reading back `str(user_id)` gives `user_id`, negative values included |
| `Messages.DeletedMessageNamesId` | codigos/aula_05_2/fast_zero/app.py:96 | the id can be read back out of the deletion confirmation, and it is exactly the id that was deleted |
| `Messages.DeletedMessageInjective` | codigos/aulas_2_e_3/fast_zero/app.py:48 | different ids give different confirmations |
| `MemoryStore.Directory.constructor` | codigos/aula_02_e_03/fast_zero/app.py:7 | the directory starts as the empty list |
| `MemoryStore.Directory.ReadUsers` | codigos/aula_02_e_03/fast_zero/app.py:19-21 | the listing has one entry per stored record, in stored order, each the record's public view; an empty list gives `[]` |
| `MemoryStore.Directory.CreateUser` | codigos/aula_02_e_03/fast_zero/app.py:12-16 | appends exactly the body under id `old len + 1` and changes nothing before it; returns `{len+1, username, email}`; the listing grows by exactly that entry |
| `MemoryStore.Directory.UpdateUser` | codigos/aula_02_e_03/fast_zero/app.py:24-35 | an id outside `1..len` gives `NotFound` and changes nothing; otherwise only position `user_id-1` is replaced, by the body under id `user_id`, and that record's public view is returned; the length and every other position stay the same |
| `MemoryStore.Directory.DeleteUser` | codigos/aula_02_e_03/fast_zero/app.py:38-48 | an id outside `1..len` gives `NotFound` and changes nothing; otherwise position `user_id-1` is removed: the length drops by one, earlier records keep their place, later ones move down one; the confirmation names `user_id` |
| `MemoryStore.Directory.UniqueUsernames` | codigos/aula_02_e_03/fast_zero/app.py:52-62 | fails with `NoUsers` exactly when the list is empty; otherwise returns names with no repeats, each a stored username, covering every stored username |
| `MemoryStore.IdRepeatsAfterDelete` | codigos/aula_02_e_03/fast_zero/app.py:14-46 | create, create, delete id 1, create leaves two live records that both have id 2 |
| `MemoryStore.DeleteSameIdTwice` | codigos/aulas_2_e_3/fast_zero/app.py:38-48 | with two users stored, deleting id 1 twice succeeds both times |
| `MemoryStore.LessonFourSession` | codigos/aula_04/tests/test_app.py:4-70 | the aula_04 test sequence on one shared list: create gives id 1, list shows it, update of id 1 returns the new fields, unique usernames is `[new username]`, delete confirms id 1, unique usernames then fails with `NoUsers` |
| `TableRows.FirstCollision` | codigos/aula_05_2/fast_zero/app.py:25-29 | finds a row exactly when some row shares the username or the email; the row found is such a row, and no row before it is |
| `TableRows.Lookup` | codigos/aula_05_2/fast_zero/app.py:67 | finds a position exactly when some row has the id; the row there has that id, and in a well-formed table it is the only such row |
| `TableRows.CheckNew` | codigos/aula_05_2/fast_zero/app.py:25-42 | refuses exactly when some row shares the username or the email, and always with `AlreadyExists` |
| `TableRows.CheckNewByField` | codigos/aula_05/fast_zero/app.py:26-41 | refuses exactly when some row collides; `UsernameTaken` exactly when the first colliding row has the username, `EmailTaken` exactly when it has the email but not the username |
| `TableRows.Page` | codigos/aula_05_2/fast_zero/app.py:58 | `offset(skip).limit(limit)`: empty when the offset is past the end; otherwise `min(limit, rows left)` rows (all rows left for a negative limit), the k-th being row `offset + k` |
| `TableRows.PagesCompose` | codigos/aula_05/fast_zero/app.py:60 | page `[skip, skip+n)` followed by page `[skip+n, skip+n+m)` is page `[skip, skip+n+m)`: consecutive pages tile the table |
| `TableRows.WholeTablePage` | codigos/aula_05_2/tests/test_app.py:56-73 | at offset 0, a limit of at least the table size, or a negative one, lists the whole table |
| `TableRows.InsertWellFormed` | codigos/aula_05_2/fast_zero/app.py:44-47 | inserting under an admissible id keeps ids positive and distinct |
| `TableRows.InsertKeepsCredentialsUnique` | codigos/aula_05_2/fast_zero/app.py:25-47 | an insert that passed the collision check keeps usernames and emails unique |
| `TableRows.OverwriteWellFormed` | codigos/aula_05_2/fast_zero/app.py:74-76 | overwriting one row's fields keeps the table well formed and the set of ids unchanged |
| `TableRows.OverwriteCanDuplicateUsername` | codigos/aula_05_2/fast_zero/app.py:67-80 | some table with unique usernames and emails gets two rows with one username after an update |
| `TableRows.RemoveIndex` | codigos/aula_05_2/fast_zero/app.py:93 | after removing position i, rows before i keep their place and rows after it move down one |
| `TableRows.RemoveWellFormed` | codigos/aula_05/fast_zero/app.py:99 | removing a row keeps the remaining ids positive and distinct |
| `TableRows.RemoveDropsExactlyThatId` | codigos/aula_05_2/fast_zero/app.py:86-94 | after removing the row with an id, no row has that id, every other id is still present, and the table stays well formed |
| `TableRows.UniqueCredentialsUsernames` | codigos/aula_05/fast_zero/app.py:109 | in a table with unique usernames, the list of usernames has no repeats |
| `TableRows.SomeIdIsAdmissible` | codigos/aula_05/fast_zero/app.py:43-46 | every table admits some id for the next insert, so requiring an admissible id never blocks a create |
| `TableStore.UserTable.constructor` | codigos/aula_05/tests/conftest.py:20 | a new table is empty and well formed |
| `TableStore.UserTable.CreateUser` | codigos/aula_05_2/fast_zero/app.py:21-49 | fails exactly when some row shares the username or the email, with `AlreadyExists`, and the table is then unchanged; otherwise appends exactly the body under the assigned id and returns `{id, username, email}`; the first user of an empty table gets id 1; ids stay distinct; uniqueness of usernames and emails is kept |
| `TableStore.UserTable.CreateUserByField` | codigos/aula_05/fast_zero/app.py:21-53 | fails exactly when some row collides, with the table unchanged; `UsernameTaken` only if some row has the username, `EmailTaken` only if some row has the email, the choice following the first colliding row; otherwise the same insert as `CreateUser` |
| `TableStore.UserTable.ReadUsers` | codigos/aula_05_2/fast_zero/app.py:52-59 | none when the offset is past the end, so an empty table lists `[]`; otherwise exactly `min(limit, rows left)` entries (all rows left for a negative limit); the k-th entry is the public view of row `offset + k` |
| `TableStore.UserTable.UpdateUser` | codigos/aula_05_2/fast_zero/app.py:62-80 | fails with `NotFound` exactly when no row has the id, with the table unchanged; otherwise the row with that id gets username, email and password from the body and keeps its id; every other row is untouched; returns `{user_id, username, email}` |
| `TableStore.UserTable.DeleteUser` | codigos/aula_05_2/fast_zero/app.py:83-96 | fails with `NotFound` exactly when no row has the id, with the table unchanged; otherwise removes exactly that row, keeping the others in order; returns a confirmation naming the id; afterwards no row has the id, so a second delete fails |
| `TableStore.UserTable.UsernamesPage` | codigos/aula_05_2/fast_zero/app.py:101-121 | fails with `NoUsers` exactly when the page is empty (always, for an empty table); otherwise the usernames of the page, in table order |
| `TableStore.UserTable.DistinctUsernames` | codigos/aula_05/fast_zero/app.py:107-116 | fails with `NoUsers` exactly when the table is empty; otherwise names with no repeats, each a stored username, covering every stored username; when usernames are unique it is exactly the usernames in table order |
| `TableStore.CreateUpdateDeleteScenario` | codigos/aula_05/tests/test_app.py:6-128 | on a fresh table: create kenan gives `{1, kenan, kenan@kel.com}`, update id 1 gives `{1, chris, chris@market.com}`, delete id 1 confirms id 1, the listing is then `[]`, and a second delete fails with `NotFound` |
| `TableStore.DuplicateFieldScenario` | codigos/aula_05/tests/test_app.py:27-51 | with the fixture user stored, a body reusing its username is refused with `UsernameTaken`, one reusing only its email with `EmailTaken` |

## Left out

- HTTP plumbing: routing, status codes (201, 400, 404, 422) and the `detail` texts. Each distinct failure is an `Error` value; the texts are noted beside the constructors in `users.dfy`.
- Request validation and serialisation by the schema library. `fast_zero/schemas.py` is not part of this model. A body is any three strings, and the `response_model` projection is `ToPublic`, as the tests show.
- Default query parameters (`skip=0`, `limit=100`): the model's callers always pass both.
- The ORM session: `commit`, `refresh`, transactions and the engine's id generator. The id the database assigns on insert is the `dbId` argument. It is only required to be positive, unused, and 1 whenever the table is empty. The last part is SQLite's rowid rule for a table without AUTOINCREMENT, which also covers a table emptied by deletes; the tests themselves pin id 1 only for a freshly created table. Nothing is said about ids being reused.
- The row order of a query without `ORDER BY` is taken to be table order (the order of `rows`). `session.scalar` returns the first matching row in that order.
- `.unique()` in `codigos/aula_05_2/fast_zero/app.py:108` removes repeated ORM objects. The rows of a page are distinct objects, so it has no effect and is not modelled.
- Column constraints on the table: `fast_zero/models.py` is not part of this model. If its columns declare `unique`, the database would reject at commit an update that duplicates a username. The model follows the handler, which checks nothing.
- `MemoryStore.Directory.UniqueUsernames`: does not state an order, because `list(set(...))` follows Python's set iteration order. The model's `Dedup` keeps first occurrences, but only "no repeats, same names" is promised.
- `TableStore.UserTable.DistinctUsernames`: does not state an order when usernames repeat, because the order of `SELECT DISTINCT` is the engine's. Its promise of table order when usernames are unique rests on the assumption above that a query without `ORDER BY` returns rows in table order; a plan that scanned a unique index on `username` would return them in index order instead.
- Negative `skip` and `limit` follow SQLite's rule for `OFFSET` and `LIMIT`: a negative offset counts as 0, and a negative limit means no bound.
- `TableStore.UserTable.UpdateUser`, `TableStore.UserTable.DeleteUser`, `TableStore.UserTable.ReadUsers`, `TableStore.UserTable.UsernamesPage`: `user_id`, `skip` and `limit` are taken to fit SQLite's signed 64-bit INTEGER, because the model's ints are unbounded. Outside that range the driver raises an error when it binds the parameter (or the schema library refuses the request), where the model answers `NotFound` or a page. The list-backed handlers compare and index in plain Python and have no such limit.
- The debug `print` calls in `codigos/aula_05_2/fast_zero/app.py:30-31,110-112`, and `codigos/aula_02_e_03/fast_zero/hello_world.py`, which returns constant text.
- Concurrency: each handler is one atomic step on the store.
- The test fixtures (`conftest.py`) and the ORM-only `test_db.py` files.
