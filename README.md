# Cipher chat store, modelled in Dafny

Cipher is a minimal direct-messaging backend. Its HTTP endpoints read and write two SQLite tables:

- `users`: one row per user id (the primary key), holding a display name;
- `messages`: an append-only log of `(senderId, receiverId, content, timestamp)` rows, numbered by an
  autoincrement id.

This project models that store as the class `Backend.ChatStore`. The class has a `users` map and a
`messages` sequence, and one method per endpoint:

- `CreateUser` (POST /api/users): upsert a user;
- `Post` (POST /api/message): validate both ends, then append one row;
- `FetchMessages` (GET /api/message): a read-only history query that joins, filters and sorts.

The record shapes (`User`, `Message`) and the table rows are datatypes in module `Records`.

The history query is given once, as pure functions:

- `Selected` is the join of `messages` with `users` at both ends, filtered to rows involving the user,
  in log order;
- `SortedByTime` is `ORDER BY timestamp ASC`.

`FetchMessages` evaluates the query and builds the history with a loop. Its result is proved sorted by
timestamp and a permutation of `Selected`. The lemmas state what `Selected` means:

- which messages it holds;
- that every message in it carries the display names the `users` table has at read time;
- that nothing is dropped while every stored message's two ends are known users;
- how a rename or a new post shows up in a later fetch.

That last condition, referential integrity, is `ChatStore.Valid()`. SQLite does not enforce the
declared foreign keys, but every mutating method is proved to keep it.

`datetime.now()` is the `now` parameter of `Post`. Timestamps are integers: the store only compares
them, and the stored text values sort in the same order as the instants they encode.

Three client methods use the contracts alone:

- `CreateUserTwice`: calling `CreateUser` twice with the same arguments leaves the same tables as
  calling it once (idempotence);
- `PostThenFetch`: a post between two known users is visible in a later fetch for both ends;
- `OneMessageScenario`: users `mohammad` and `khader`, one rejected post from an unknown sender and one
  accepted post `"hi"`; the sender's history is then exactly that one message.

## Model

| member | source | states |
|---|---|---|
| `Backend.UserNotFound` | backend.py:160-169 | The error for a missing user has status 404. Its detail is "User ", then the id, then " not found", so the id can be read back from it. |
| `Backend.NotFoundNamesUser` | backend.py:163-169 | Two missing-user errors are equal only for the same id, so a failed post says whether the sender or the receiver was missing. |
| `Backend.Resolve` | backend.py:261-266 | A row joined with `users` at both ends yields a message that stores back as the same row (ids, content, timestamp). Both its display names are the ones `users` holds when the query runs. |
| `Backend.Selected` | backend.py:259-267 | The history query without ORDER BY, in log order. It has at most one message per log row. Every message in it comes from a row that involves `id`, has both ends in `users`, and resolves to that message. |
| `Backend.ChatStore.constructor` | scripts/sqlite_setup.py:7-25 | The store starts with no users and no messages, and referential integrity holds. |
| `Backend.ChatStore.CreateUser` | backend.py:318-344 | INSERT OR REPLACE: afterwards `users[userId] == displayName`. Every other user and the whole message log are unchanged. The answer is the record `{userId, displayName}`. Referential integrity is kept, because no key is ever removed. |
| `Backend.ChatStore.Post` | backend.py:102-220 | An unknown sender fails with 404 "User {senderId} not found". A known sender with an unknown receiver fails with 404 "User {receiverId} not found". The sender is checked first. Both failures leave both tables unchanged. Otherwise exactly one row `(senderId, receiverId, content, now)` is appended, `users` is unchanged, and the answer is the message with both display names as the table held them at call time. Referential integrity is kept. |
| `Backend.ChatStore.FetchMessages` | backend.py:228-311 | Read-only: it has no `modifies` clause. The history is sorted non-decreasing by timestamp. It is a permutation of `Selected(users, messages, userId)`, the joined and filtered rows. So a message is in it exactly when it is in `Selected`. Tie order is not promised. |
| `Backend.InsertByTime` | backend.py:268 | Inserting into a timestamp-ordered sequence keeps it ordered and adds exactly that element to its multiset. |
| `Backend.SelectedMembers` | backend.py:259-269 | A message is in the history query's result for `id` if and only if some log row has `senderId == id` or `receiverId == id`, has both ends in `users`, and resolves to that message. |
| `Backend.SelectedAreCurrent` | backend.py:261-266 | Every message in the result involves `id`, and both its display names are the ones `users` holds at read time. |
| `Backend.NothingDropped` | backend.py:265-267 | While every stored row's sender and receiver are users, the joins drop nothing. Position by position, the result is the resolved list of all log rows involving `id`. |
| `Backend.RenameReflected` | backend.py:265-266 | Display names are joined at read time. After an existing user is given a new name, the unsorted query result keeps the same messages in the same order with the same contents, times and ids. Every end belonging to that user now shows the new name; every other name is unchanged. |
| `Backend.PostedVisible` | backend.py:206-208 | Appending a row whose two ends are users adds its resolved message at the end of the unsorted history of both the sender and the receiver. Every other user's history is unchanged. |
| `Backend.PostThenFetch` | backend.py:102-311 | A post between two known users succeeds, and the message it returns is in a later fetch of both the sender's and the receiver's history. A post naming an unknown user fails and leaves the log unchanged. Only the contracts of `Post` and `FetchMessages` are used. |
| `Backend.CreateUserTwice` | backend.py:336-337 | Calling the upsert twice with the same arguments gives the state that calling it once gives. |

## Left out

- The realtime session manager, connection registry and presence publisher: the code contains only an unused `WebSocket` import and two TODO comments for them.
- SQLite connections, cursors, `commit` and `row_factory`: the tables are in-memory fields of the class.
- FastAPI routing, JSON serialisation and HTTP status handling: a failed endpoint answers `Err(HttpError(404, detail))` instead of raising, and the `{"message": ...}` and `{"chat_history": ...}` wrappers are dropped.
- The `/` HTML handler, static file mounting and the uvicorn entry point: file and process I/O.
- `Backend.ChatStore.FetchMessages`: always answers, but GET /api/message can fail with a 500 for a whole history. sqlite3's default datetime adapter stores `isoformat(" ")`, which leaves out the fractional seconds when the microsecond part is zero. `parse_time` (backend.py:76-77) then parses with the format `'%Y-%m-%d %H:%M:%S.%f'`, which demands a fraction, and raises. So a message posted at a whole second makes every later fetch of either end's history fail. The model keeps instants instead of text and does not model `strptime`, a foreign date-format grammar, so this failure is not captured.
- `parse_time`: the non-string branch (backend.py:78) passes the value through unchanged, which is what the model's instants amount to.
- `datetime.now()`: it is an input, the `now` parameter of `Post`.
- The `print` logging of `message` and `fetchMessages`.
- scripts/seed_data.py and scripts/sqlite_setup.py as programs: one-shot setup scripts that do file I/O. The schema serves only as evidence for the data model.
- `Backend.ChatStore.FetchMessages`: `ORDER BY` leaves the order of equal timestamps unspecified. The method breaks ties by log order, but its contract deliberately promises only sortedness and permutation.
- Concurrency between requests: the model runs each endpoint as one atomic step.
