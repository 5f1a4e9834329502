# To-do list backend: owner-scoped user and task store

This project models the core of a to-do list web backend. The backend has two
relational tables, `users` and `tasks`. Each task has one owner. Route handlers
register users, log them in with bcrypt-checked passwords, hand out JWT bearer
tokens, and run create/read/update/delete on tasks scoped to the token's user.
A second, earlier and unauthenticated version of the same service
(`API/src/main.py`) works on the same tables under different rules.

Modules:

- `Wrappers`: `Option` and `Result`.
- `Http`: the handlers' error kinds and their status codes (400, 401, 404, 500).
  Also Python truthiness of an optional JSON string field (`Provided`), and the
  partial-update rule built on it (`Patch`).
- `Schema` (Database/src/models.py): the `User` and `Task` rows. `Consistent`
  holds what the database guarantees about a committed state: keys are ids,
  columns fit their `String(n)` widths, usernames are unique, and every
  `owner_id` points at an existing user. The module also holds the
  `delete-orphan` cascade, scans in primary-key order, and the next
  auto-increment value after `ALTER TABLE ... AUTO_INCREMENT = 1`.
- `Credentials`: bcrypt as a pair of functions `hash`/`verify`. The predicate
  `Sound` is the one law the handlers rely on: `verify(p, hash(p))` holds, and
  a hash is 60 characters long.
- `Jwt`: python-jose's HS256 tokens (RFC 7519), made abstract. A token is
  `Signed(claims, key)` or `Malformed`. `Decode` fails on a foreign key, on
  `now` past `exp` (python-jose rejects only when `exp < now`), and on a
  non-string `sub` (section 4.1.2 of RFC 7519).
- `Auth` (API/src/app/auth.py): `CreateAccessToken` and `GetCurrentUser`.
- `Routes` (API/src/app/routes/users.py and tasks.py): class `Store` holds
  `users`, `tasks`, both id counters, the signing key and the bcrypt
  functions. It has one method per route.
- `MainApp` (API/src/main.py): class `Store` over the same datatypes.
- `Scenarios`: the test flows of API/tests/test_main.py as clients of
  `Routes.Store`. Their only `ensures` is `Valid()`; each step's outcome is
  proved by an `assert` in the body.

Every state-changing route handler keeps `Valid()`: `Consistent` plus "every
key is below its counter". Its `ensures` give the whole new state in terms of
the old one.

The source checks some constraints only in the database. Examples are a
missing title, an over-long field, a duplicate username set through an
update, and an unknown `owner_id`. The database refuses the commit and the
client gets a 500. The model does the same: such a method returns
`InternalError` and changes nothing.

Notes on the code:

- The default token lifetime is `expires_delta or timedelta(minutes=15)`
  (auth.py:41), so a zero delta also gets 15 minutes.
- The authenticated `create_task` does no field validation. A missing title
  fails the NOT NULL constraint (500), and an empty title is stored.
- A token names a username, not a row (auth.py:60-63), and registration is
  open to anyone (users.py:43-60). Deleting an account therefore revokes its
  unexpired tokens only until someone registers the freed username: from then
  on they act as the new account (`Auth.TokenRevivedByReRegistration`).
- `ALTER TABLE tasks AUTO_INCREMENT = 1` does not set the counter to 1 while
  rows remain. MySQL raises it to one past the largest remaining id. The
  authenticated `delete_task` resets the counter once the caller has no
  tasks left, even if other users still have tasks. That reset can only lower
  the counter to a fresh value (`AutoIncrementAfter`).
- The routes import `hash_password` (users.py:14, tasks.py:15) and
  `decode_access_token` (tasks.py:15) from `auth.py`, which defines neither;
  it only imports `verify_password`. The model takes `hash_password` to be
  the one in API/src/app/hashing.py, and no handler uses `decode_access_token`.

## Model

| member | source | states |
|---|---|---|
| `Schema.OwnedCount` | API/src/app/routes/tasks.py:136-137 | The owner-filtered `.count()` is zero exactly when the owner owns no task. |
| `Schema.CascadeDelete` | Database/src/models.py:30 | Deleting a user together with its tasks keeps every schema guarantee (including no orphan tasks). None of that user's tasks remain. Every other task stays exactly as it was. |
| `Schema.NextAutoIncrement` | API/src/app/routes/tasks.py:137-138 | After a counter reset the next id is above every remaining key, one past the largest key, and 1 on an empty table. |
| `Schema.SelectTasks` | API/src/app/routes/tasks.py:67 | An (optionally owner-filtered) task query returns exactly the matching rows, each unchanged, by strictly increasing id. |
| `Schema.SelectUsers` | API/src/main.py:154 | The user query returns every row, unchanged, by strictly increasing id. |
| `Jwt.DecodeEncode` | API/src/app/auth.py:59 | Decoding with the signing key gives back exactly the encoded claims while they are unexpired and `sub` is a string. A decode that succeeds means the token was signed with that key. |
| `Auth.CreateAccessToken` | API/src/app/auth.py:39-44 | The token is signed with the key. Its claims are the input claims plus `exp = now + delta`, where the delta defaults to 15 minutes when absent or zero. |
| `Auth.FindUsername` | API/src/app/auth.py:63 | The username lookup finds a row with that username, or reports that none exists. |
| `Auth.GetCurrentUser` | API/src/app/auth.py:57-68 | Every failure is 401: a decode failure, a payload without `sub`, or a `sub` naming no user. Success happens exactly when `sub` names an existing user, and the result is that user's row. |
| `Auth.IssuedTokenResolves` | API/src/app/auth.py:39-66 | A token issued for an existing user's username resolves to exactly that user up to and including its expiry second. After that second it gives 401. |
| `Auth.DeletedUserTokenRejected` | API/src/app/auth.py:63-65 | In the table right after the named user is deleted, a still-valid token gives 401. |
| `Auth.TokenFollowsUsername` | API/src/app/auth.py:60-63 | A token that decodes resolves to whichever row currently holds its `sub` username, not to the row it was issued for. |
| `Auth.TokenRevivedByReRegistration` | API/src/app/routes/users.py:43-60 | After a user is deleted, its unexpired token gives 401; once anyone registers the freed username as a new row, the same token resolves to that new row. |
| `Auth.ForgedTokenRejected` | API/src/app/auth.py:67-68 | A token signed with any other key gives 401. |
| `Routes.CheckCredentials` | API/src/app/routes/users.py:93-98 | Login's credential check as intended: it succeeds exactly when the user exists and the password verifies, and every failure is the same 401. |
| `Routes.CheckCredentialsAsWritten` | API/src/app/routes/users.py:93-98 | The same check as the code has it: its failure branch ends in a 500. |
| `Routes.LoginFailureAsWritten` | API/src/app/routes/users.py:95 | For an unknown username the code as written yields 500, where 401 is intended. |
| `Routes.RegisteredPasswordVerifies` | API/src/app/routes/users.py:58 | A user whose stored hash is `hash(password)` passes the credential check with that password. |
| `Routes.Store.constructor` | API/src/app/auth.py:23-24 | Fixes the signing key and the bcrypt functions for the store's lifetime. The tables start empty with both counters at 1, as on a fresh `create_all` start. |
| `Routes.Store.CreateUser` | API/src/app/routes/users.py:43-72 | 400 when the username or password is missing or empty, and 400 for a taken username, in both cases with nothing added. An over-wide username gives 500. Otherwise it adds exactly one row (next id, the username, `hash(password)`) and returns that id, that username and a token whose `sub` is that username. |
| `Routes.Store.Login` | API/src/app/routes/users.py:87-101 | Succeeds exactly when some user has that username and the password verifies against its hash. Every failure is 401. A success returns the default-lifetime token for `{"sub": username}`. |
| `Routes.Store.ReadUserProfile` | API/src/app/routes/users.py:114-120 | 401 for an unresolved caller. Otherwise it returns only the caller's id and username. |
| `Routes.Store.UpdateUser` | API/src/app/routes/users.py:133-150 | 404 for an unknown id, with nothing changed. The username changes only to a truthy value, and the password is re-hashed only when one is supplied. A too-wide or duplicate username (no check of its own; the UNIQUE index refuses it) gives 500 with nothing changed. |
| `Routes.Store.DeleteUser` | API/src/app/routes/users.py:162-174 | 401 for an unresolved caller, with nothing changed. Otherwise it removes only the caller's own row and exactly the caller's tasks. |
| `Routes.Store.CreateTask` | API/src/app/routes/tasks.py:42-53 | 401 for an unresolved caller. The new task's owner is the caller and its title and description are exactly the request's. A missing or over-wide title or an over-wide description gives 500 with nothing changed. |
| `Routes.Store.ReadTasks` | API/src/app/routes/tasks.py:65-68 | 401 for an unresolved caller. Otherwise it returns exactly the tasks the caller owns, by increasing id. No other user's task appears. |
| `Routes.Store.ReadTask` | API/src/app/routes/tasks.py:80-85 | Succeeds only when the id exists and the caller owns it. A missing task and another user's task give the same 404. |
| `Routes.Store.UpdateTask` | API/src/app/routes/tasks.py:97-114 | A task the caller does not own gives 404 with nothing changed. Otherwise only truthy title and description values overwrite, and id and owner never change. |
| `Routes.Store.DeleteTask` | API/src/app/routes/tasks.py:127-141 | A task the caller does not own gives 404 with nothing changed. Otherwise exactly that task is removed. The counter is reset if and only if the caller has no task left, whatever other users own. |
| `MainApp.Store.constructor` | API/src/main.py:46-48 | The service starts with empty tables and both counters at 1. |
| `MainApp.Store.CreateUser` | API/src/main.py:124-140 | 400 when the username or `hashed_password` is missing or empty, and 400 for a taken username. Otherwise the client's `hashed_password` is stored verbatim. Over-wide fields give 500. |
| `MainApp.Store.ReadUsers` | API/src/main.py:152-155 | Returns every user, by increasing id. |
| `MainApp.Store.ReadUser` | API/src/main.py:168-173 | Returns the row with that id, or 404. |
| `MainApp.Store.DeleteUser` | API/src/main.py:185-200 | 404 for an unknown id, with nothing changed. Otherwise it removes the row and exactly its tasks. The user counter resets only when no user is left, and the task counter never does. |
| `MainApp.Store.UpdateUser` | API/src/main.py:213-230 | 404 for an unknown id. Only truthy username and `hashed_password` values overwrite. A too-wide or duplicate value gives 500 with nothing changed. |
| `MainApp.Store.CreateTask` | API/src/main.py:247-265 | An empty user table gives 404 before any field is checked. Then 400 unless the title and `owner_id` are truthy (so `owner_id` 0 is refused). An unknown owner or an over-wide field gives 500. Otherwise one task is added with the client's `owner_id`. |
| `MainApp.Store.ReadTask` | API/src/main.py:277-282 | Returns the row with that id, or 404. There is no owner check. |
| `MainApp.Store.ReadTasks` | API/src/main.py:294-297 | Returns every task of every user, by increasing id. |
| `MainApp.Store.ReadTasksByUser` | API/src/main.py:309-312 | Returns exactly the tasks whose owner is the given id, by increasing id. An unknown user has none. |
| `MainApp.Store.UpdateTask` | API/src/main.py:324-341 | 404 for an unknown id. Only truthy title and description values overwrite, and `owner_id` is untouched. |
| `MainApp.Store.DeleteTask` | API/src/main.py:353-366 | 404 for an unknown id, with nothing changed. Otherwise exactly that task is removed, and the counter resets only when the whole table is empty. |
| `Scenarios.TaskLifecycle` | API/tests/test_main.py:100-124 | Keeps `Valid()`, and proves step by step, from the handlers' contracts alone, that register, log in, create, list, retitle and delete a task all succeed. The listed task is the created one, and the update gives the new title. |
| `Scenarios.DeleteAccount` | API/tests/test_main.py:137-147 | Keeps `Valid()`, and proves step by step that registration, login and deleting the account with the login token succeed, as the test does. Extending the test, a task created beforehand is gone afterwards and the same token then gives 401. |

## Findings

| source | as written | input that shows it | evidently intended | confidence | as-written member | corrected member |
|---|---|---|---|---|---|---|
| API/src/app/routes/users.py:95 | The failed-login branch reads `status.HTTP_401_UNAUTHORIZED`, but the file never imports `status`, so it raises NameError and the client gets 500 | POST /token with an unknown username, or with a wrong password | 401 "Incorrect username or password" | high; not executed | `Routes.CheckCredentialsAsWritten` (with `Routes.LoginFailureAsWritten`) | `Routes.CheckCredentials`, used by `Routes.Store.Login` |

## Left out

- Password hashing (bcrypt through passlib) is abstract: `hash` and `verify` are parameters of the store, bound only by `Sound`. Salting is not modelled, so `hash` is a function and hashing the same password twice gives the same value, unlike the real thing. That a wrong password fails to verify is not stated: bcrypt truncates at 72 bytes, so it does not hold for every pair.
- JWT signing is abstract: a signature is the signing key carried in the token, so only a holder of the key can produce a valid token. Encoding to a string, HS256 itself, `iat`/`nbf`/`aud` checks, a non-zero leeway and a missing `JWT_SECRET_KEY` are left out.
- The clock is the parameter `now`, in whole seconds. `datetime.utcnow()` is not called.
- A missing `Authorization` header makes FastAPI's OAuth2 scheme answer 401 before `get_current_user` runs. The model has no such case; it is the same 401 as any bad token.
- Usernames are compared as exact strings, both in the `filter(User.username == ...)` lookups (users.py:53, users.py:92, auth.py:63) and in the UNIQUE index (models.py:27). MySQL's default case- and accent-insensitive collation is not modelled: under it, registering "Alice" while "alice" exists gives 400, whereas the model accepts both rows.
- Row order is assumed, not promised by SQL: the `.all()` queries (tasks.py:67, main.py:154, main.py:296, main.py:311) have no ORDER BY. The increasing-id order that `Schema.SelectTasks`, `Schema.SelectUsers` and the read handlers promise is InnoDB's primary-key scan order.
- Request parsing is left out. JSON fields are `Option<string>` (or `Option<int>` for `owner_id`), so values of other JSON types are not modelled. Login form fields are plain strings.
- Routes.Store.DeleteUser: the 404 branch (users.py:167-168) cannot happen here. Requests run one at a time, and identity resolution has just found the caller's row.
- When a commit is refused, the model leaves the auto-increment counters unchanged. InnoDB may consume an id for a failed insert; that gap is not modelled.
- Sessions (`get_db`), `startup`'s `create_all`, `list_tables`, `test_db_connection`, `read_root`, CORS and router wiring are framework plumbing and are not part of this model.
- The superseded drafts are not part of this model: API/routes/users.py and API/routes/tasks.py (undefined names; their logic repeats API/src/main.py), API/main.py (an in-memory list whose `create_task` is never registered), API/src/app/main.py and API/src/app/database.py (wiring with undefined names), and the early schema Database/models.py with Database/database.py. The React frontend is not part of it either.
- A `completed` flag on tasks does not exist in Database/src/models.py and is not modelled.
