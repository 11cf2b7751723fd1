# User record service — a Dafny model

This project models the core of a small user-management web service
(`main.py`). Its five request handlers work on one table, `users`, and
together they form a state machine over user records:

- `readAll` lists the active records;
- `create_user` inserts a record with a hashed password;
- `read_user` fetches a record by id;
- `update_user` overwrites a record's fields;
- `delete_user` soft-deletes a record by stamping `deleted_at`.

A record is active exactly when `deleted_at` is null. No handler ever
removes a row.

Files:

- `users.dfy` (module `Users`) holds the row shape `User`, the request
  bodies `UserCreate` and `UserUpdate`, and the `Option`/`Result` wrappers.
  Every column except the primary key is declared nullable. `created_at`
  is nullable too, but it is never null here: every insert fills it from
  its default and no handler writes it, so the model keeps it as a plain
  timestamp.
- `handlers.dfy` (module `Handlers`) models the table as a value: a map
  from primary key to row plus the auto-increment counter. Each handler is a
  function from the table before a request to the answer and the table
  after it. `Valid` is the table's integrity: keys match the ids, keys
  stay below the counter, and non-null emails are unique. Every handler
  preserves `Valid`.
- `repository.dfy` (module `Repository`) holds the service as it runs: class
  `UserRepository` with a `rows` map and a `nextId` counter. It has two
  query functions and three mutating methods (`modifies this`). Each method
  is proved against the matching `Handlers` function, and its contract also
  says which record and which fields change and that nothing else does.
  `ApplyUpdate` is the `setattr` loop of `update_user`, kept as a loop.
- `lifecycle.dfy` (module `Lifecycle`) proves properties over whole
  sequences of requests:
  - the lifecycle is one-way;
  - an active record stays listed until it is deleted;
  - no row is ever removed;
  - the round trips between the handlers hold.

Inputs that come from outside the program are parameters:

- The clock (`datetime.utcnow`) is a `now: Time` argument, an integer.
- The salt from `bcrypt.gensalt()` is a `salt` argument.
- `bcrypt.hashpw` is a function value `hashpw: (string, Salt) -> string`.
  Nothing is assumed about it, not even injectivity.

Two quirks of the code are reproduced as written:

- `update_user` writes every field of the request, so a field the request
  leaves null is stored as null.
- `update_user` stores the password as given, unhashed. `create_user`
  stores the hash.

`update_user` also does not check `deleted_at`, so it succeeds on a
soft-deleted record, and the record stays soft-deleted.

The table declares `email` unique. So a create with an email that any row
already holds fails with `Conflict`, whether that row is active or
soft-deleted. An update that sets an email held by another row also fails
with `Conflict`: the commit at `main.py:89` breaks the constraint and is
rolled back. A null email never conflicts, because SQL lets many rows hold
null under a unique constraint. In `update_user` the failure comes after
the `setattr` loop, as in the code.

## Model

| member | source | states |
|---|---|---|
| `Handlers.ReadAll` | main.py:53-59 | always answers a result and never NotFound, because the query yields a list; a stored record is in the answer exactly when its `deleted_at` is null; everything answered is a stored active record, the one under its own id |
| `Handlers.ReadUser` | main.py:73-79 | answers the record stored under the id whether or not it is soft-deleted; on a valid table it succeeds exactly when some row carries that id; otherwise it fails with NotFound |
| `Handlers.CreateUser` | main.py:61-71 | fails with Conflict, and changes nothing, exactly when some row (active or deleted) holds the email; otherwise it adds exactly one row, under the counter's id, which is fresh on a valid table; in that row name, email and role are as given, the password is `hashpw(plaintext, salt)`, `created_at` is now and `deleted_at` is null; all other rows are unchanged; the answer echoes name, email, hashed password and role; validity is preserved |
| `Handlers.UpdateUser` | main.py:81-91 | fails with NotFound, changing nothing, exactly when the id is missing; on a present id it fails with Conflict, changing nothing, exactly when the new email is held by another row, and otherwise it succeeds; on success it sets name, email, password and role to exactly the supplied values, nulls and the unhashed password included; it keeps id, `created_at` and `deleted_at`, and replaces only that row; validity is preserved |
| `Handlers.DeleteUser` | main.py:93-105 | fails with NotFound exactly when the id is missing, and then changes nothing; otherwise it sets only `deleted_at` of that record to now, answers the updated record, and touches no other row; validity is preserved |
| `Handlers.ReplaceKeepsValid` | main.py:25 | replacing a row by a record with the same id keeps the table valid when its email, if set, is held by no other row |
| `Repository.ApplyUpdate` | main.py:87-88 | the loop over the request's items leaves name, email, password and role equal to the request's values (nulls included) and keeps id, `created_at` and `deleted_at` |
| `Repository.UserRepository.constructor` | main.py:21-29 | the table starts empty with the auto-increment counter at 1, which is valid |
| `Repository.UserRepository.ReadAll` | main.py:53-59 | answers, without changing anything, exactly the stored records whose `deleted_at` is null |
| `Repository.UserRepository.ReadUser` | main.py:73-79 | answers the record under the id, soft-deleted or not, and NotFound exactly when no row has that key |
| `Repository.UserRepository.CreateUser` | main.py:61-71 | on a duplicate email it answers Conflict and leaves rows and counter unchanged; otherwise the rows become the old rows plus one new row under the old counter value, which was free; the counter goes up by one; the answer echoes the stored fields with the hashed password; validity is kept |
| `Repository.UserRepository.UpdateUser` | main.py:81-91 | answers NotFound exactly when the id is missing; on a present id whose new email is null or held by no other row it succeeds; on a failure the rows are unchanged; on success the rows are the old rows with only that record replaced by the old record with all four request fields overwritten; the counter is unchanged and validity is kept |
| `Repository.UserRepository.DeleteUser` | main.py:93-105 | on a missing id it answers NotFound with the rows unchanged; otherwise the rows are the old rows with only that record's `deleted_at` set to now, and the answer is that record |
| `Lifecycle.ServeKeeps` | main.py:84-100 | any single request keeps the table valid, keeps every existing row with its id and `created_at`, never reactivates a soft-deleted record, and deactivates an active one only when it deletes that id |
| `Lifecycle.DeletedStaysDeleted` | main.py:96-100 | over any sequence of requests every row survives (there is no hard delete) with its id and `created_at`, and a soft-deleted record stays soft-deleted: the lifecycle is one-way |
| `Lifecycle.ListedUntilDeleted` | main.py:56 | an active record is still listed by `readAll` after any sequence of requests that does not delete it, updates included |
| `Lifecycle.CreateThenRead` | main.py:61-79 | after a successful create, reading the new id yields the request's name, email and role, the hashed password, `created_at` now and no `deleted_at`, and the record is listed as active |
| `Lifecycle.CreateConflictsWithDeleted` | main.py:25 | a create whose email is held by a soft-deleted row still fails with Conflict and leaves the table unchanged |
| `Lifecycle.DeleteThenRead` | main.py:96-105 | after a soft delete no listed record has that id, but `read_user` still answers it, unchanged except for `deleted_at` = now |
| `Lifecycle.DeleteAgain` | main.py:96-100 | deleting the same id twice has the same answer and effect as one delete at the later time: only the timestamp is refreshed |
| `Lifecycle.UpdateDeleted` | main.py:84-88 | an update of a soft-deleted record succeeds unless the new email is taken, keeps its deletion timestamp, and leaves it out of `readAll` |
| `Lifecycle.AnnScenario` | main.py:53-105 | creating Ann (role 2), reading her back with her id, role 2 and no `deleted_at`, then soft-deleting her: she is gone from `readAll` and `read_user` answers her with `deleted_at` set to the deletion time |

## Left out

- The web framework: the app object, route decorators, HTTP status codes,
  the 404 detail text, and Pydantic validation and serialisation. The
  model returns the stored record and the error kind. The response model of
  `readAll`, `read_user`, `update_user` and `delete_user` omits the password
  and declares name, email and role non-null. So an update that stores a
  null fails to serialise after its commit, and every later `readAll` that
  lists that record fails the same way. Response filtering is not part of
  this model.
- Database connection, engine, session factory and `create_all`. The
  session's query, commit and refresh calls are foreign code and become map
  lookups and map updates. Failures of the store itself, which the service
  only propagates, are not modelled.
- bcrypt's internals and the UTF-8 encode/decode around them. Hashing is an
  uninterpreted function of the plaintext and the salt.
- Real wall-clock time. "Now" is an integer parameter.
- Transactions, isolation and concurrent requests, which the database
  handles. Each handler runs as one atomic step.
- Handlers.EmailTaken: emails are compared by exact string equality. The
  database compares them under the column's collation, which by default
  ignores letter case (and, for PAD SPACE collations, trailing spaces), so
  the database rejects some creates and updates that the model accepts.
- Column widths: `id` and `role_id` are 32-bit integer columns, so a
  `role_id` out of that range fails the commit; the model stores any
  integer and never runs out of ids.
- Handlers.ReadAll: the answer is a set of records, while the query yields
  a list. The list's order, which the code leaves to the database, is not
  modelled. Multiplicity cannot differ on a valid table, because each row
  appears once.
- Auto-increment gaps. A failed insert leaves the model's counter
  unchanged, although the database may use up an id on it; only freshness
  of the ids matters to the handlers.
- The design alternatives for the two update quirks are not modelled:
  partial updates that skip absent fields, and hashing on update. The model
  follows the code.
