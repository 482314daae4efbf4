# Attendance tracker: a verified model of the record store and its handlers

The attendance tracker is a small web backend. It keeps two tables, users and
attendance records, and serves CRUD handlers over them plus two analytics reports.
This project models what is left once the HTTP and ORM plumbing is stripped away:

- the rows and their public JSON forms (`Model`);
- the read-only handlers: fetch by id, the filtered attendance listing, the global
  summary and the per-user report (`Queries`);
- the mutating handlers as pure functions from the tables before a request to the
  reply and the tables after it, with the lemmas about them (`Handlers`);
- a `Store` class whose fields are the two tables and whose methods carry out those
  handlers in place, each proved equal to its function and to keep the tables well
  formed (`RecordStore`);
- a defect in the check-in/check-out toggle and a corrected toggle (`Findings`).

A handler answers `Ok(value)` or `Fail(failure)`. `Failure.Code` gives the HTTP status:
400 for missing or duplicate fields and a missing `user_id`, 404 for an unknown id, and
500 for a caught exception after the session is rolled back. On success `create_user`
and `mark_attendance` answer 201 and the others answer 200. A failing handler leaves
both tables exactly as they were.

The tables are sequences in primary-key order. A new row gets one more than the largest
id in use, which is how SQLite numbers an `INTEGER PRIMARY KEY` without `AUTOINCREMENT`.
`.first()` on an unordered query returns the row that comes first in that order.
`Wellformed` is the invariant every handler keeps:
- ids are strictly increasing in both tables;
- usernames and emails are unique;
- every attendance row belongs to a live user.

The following are passed in as parameters:
- the clock: `today` and `now`;
- the password hasher: `hash: string -> string`, standing for `generate_password_hash`;
- the result of parsing dates: `DateArg`, where `BadDate` is text `strptime` rejects;
- the result of parsing times: `TimeArg`, where `NotIso` is text `fromisoformat` rejects;
- how SQLite reads the `user_id` query argument, which reaches `filter_by` as text: `UserArg`,
  where `ForUser(id)` is text equal to the integer `id` and `NotNumeric` is text that is no
  integer and so matches no row.

A request body is a record of `Option` fields, where `None` is a key the JSON body does
not have. `update_user` and `update_attendance` take `Option<...>`: `None` there is a
request without a JSON body. Those two handlers then fail with 500, and only after the
404 check. The reason is that `'username' in None` raises.

`update_user` does not check uniqueness itself, but the `username` and `email` columns are
declared `unique=True` (app.py:20-21). So an update that duplicates another user's username
or email fails at commit, is rolled back, and answers 500 (`Handlers.UpdateUser`).

## Model

| member | source | states |
|---|---|---|
| `Wrappers.Failure.Code` | app.py:86-93 | 400 exactly for missing or duplicate fields and a missing user_id, 404 exactly for an unknown user or record, 500 exactly for a caught exception |
| `Model.UserToDict` | app.py:33-40 | the public user form has exactly the keys id, username, email, role and created_at, and no password key |
| `Model.UserDictIsPublicFields` | app.py:33-40 | two users have the same public form exactly when they agree on id, username, email, role and created_at, so the form never depends on the password hash |
| `Model.AttendanceToDict` | app.py:52-62 | the record form has exactly the keys of `Attendance.to_dict`, carries the owner's username, and has a null check_out_time exactly when the session is open |
| `Model.MaxId` | app.py:19 | the result bounds every id in use and is one of them, or 0 for an empty table |
| `Model.NextId` | app.py:44 | a new row's id is at least 1, is larger than every id in use, and so is not in use |
| `Model.IndexOf` | app.py:114 | a lookup by primary key finds the first position holding the id, and finds nothing exactly when no row has it |
| `Model.FindUser` | app.py:125-127 | `User.query.get` finds nothing exactly when no user has the id, and otherwise a user of the table with that id |
| `Queries.ListUsers` | app.py:72-76 | the user listing has one public form per user, in table order, none with a password key |
| `Queries.GetUser` | app.py:111-117 | fetching a user is 404 exactly when no user has the id, and otherwise the public form of the user with that id |
| `Queries.Select` | app.py:167-174 | a filtered query returns exactly the rows matching every supplied filter, and every row when no filter is supplied |
| `Queries.SelectMultiplicity` | app.py:167-174 | a filtered query holds each matching row exactly as often as the table does and no other row, so its length is the number of matching rows that the reports count |
| `Queries.SelectIntersects` | app.py:169-172 | filtering by date and by user at once gives the same rows as filtering by date and then by user |
| `Queries.Render` | app.py:56 | each listed row gets the form with its owner's username, and rendering fails exactly when some row's owner is missing |
| `Queries.ListAttendance` | app.py:161-177 | an unparseable date is a 500 whatever the user argument; a user_id that is not an integer gives an empty list; otherwise the listing has one form per matching row, and it always succeeds on well-formed tables |
| `Queries.GetRecord` | app.py:220-226 | fetching a record is 404 exactly when no record has the id; on well-formed tables a known id gives the record's form with its owner's username |
| `Queries.Percent` | app.py:283 | the ratio is 0 for a zero denominator, is otherwise part·100/whole exactly, and lies in [0, 100] when part ≤ whole |
| `Queries.StatusCountsBounded` | app.py:296-299 | the present, absent and late counts add up to at most the number of rows counted |
| `Queries.GetSummary` | app.py:270-284 | total_users is the number of users; total_present, total_absent and total_late are the numbers of records with status 'present', 'absent' and 'late', which add up to at most all records; attendance_rate is 0 when present + absent is 0, is otherwise the present share of present + absent, and lies in [0, 100] |
| `Queries.GetUserAnalytics` | app.py:289-308 | 404 exactly for an unknown user; otherwise username is that user's username, total_records is the user's row count, present, absent and late are the numbers of the user's rows with each status and add up to at most total_records, and attendance_percentage is 0 when the user has no rows, is otherwise the present share, and lies in [0, 100] |
| `Queries.AnalyticsAgreesWithListing` | app.py:296 | on well-formed tables, total_records equals the length of the attendance listing filtered by that user |
| `Handlers.CreateUser` | app.py:81-105 | 400 when username, email or password is missing, or when the username or email is taken, with the tables unchanged; otherwise it appends exactly one user with a fresh id, the given username and email, role defaulting to 'user', the hash of the password and created_at = now |
| `Handlers.CreateUserPreserves` | app.py:86-103 | creating a user keeps usernames and emails unique, ids increasing and every record's owner alive |
| `Handlers.CreatedUserIsFetchable` | app.py:95-117 | after a successful create, fetching the new id gives that user's public form, with the username, email and role of the request |
| `Handlers.CreateTwiceFails` | app.py:89-90 | repeating a successful create fails with 'Username already exists' and stores nothing |
| `Handlers.UpdateUser` | app.py:122-142 | 404 for an unknown id; 500 with the tables unchanged when the body is not JSON or the update would duplicate another user's username or email; otherwise exactly that user's supplied fields among username, email and role change, and every other field and row stays as it was |
| `Handlers.UpdateUserPreserves` | app.py:131-138 | an update keeps usernames and emails unique, ids unchanged and every record's owner alive |
| `Handlers.DropOwnedBy` | app.py:25 | the cascade keeps exactly the attendance rows of other users |
| `Handlers.DeleteUser` | app.py:145-157 | 404 with the tables unchanged for an unknown id; otherwise it removes that user's row and keeps exactly the records of other users |
| `Handlers.DeleteUserRemovesExactlyOne` | app.py:148-153 | with unique ids, the remaining users are exactly the users with another id |
| `Handlers.DropLeavesNone` | app.py:25 | after the cascade no row of the deleted user remains |
| `Handlers.DropKeepsOthers` | app.py:25 | the cascade leaves every filtered listing on another user as it was |
| `Handlers.DeleteUserCascades` | app.py:152 | after deleting a user, listing that user's records gives nothing and a listing by any other user is unchanged |
| `Handlers.DeleteUserPreserves` | app.py:145-157 | deleting a user keeps the tables well formed; no record is left pointing at the removed user |
| `Handlers.FirstOn` | app.py:194-197 | the lookup finds the earliest row of the user on the day, or nothing exactly when the user has no row that day |
| `Handlers.Mark` | app.py:180-217 | 400 without user_id and 404 for an unknown user, with the tables unchanged; it checks out exactly when the first row of (user, today) exists and is open, setting only that row's check_out_time to now; otherwise it appends one open row with a fresh id, date today, check-in now, status defaulting to 'present' and notes to '' |
| `Handlers.MarkPreserves` | app.py:185-211 | marking keeps ids increasing and every record's owner alive |
| `Handlers.FirstOnAppend` | app.py:194-197 | appending a row keeps the first row of a day, and gives a day with no rows its first row |
| `Handlers.FirstOnCheckOut` | app.py:199-201 | setting a check-out time does not change which row is first on any day |
| `Handlers.MarkToggles` | app.py:194-211 | for a user with no row today, three marks give a check-in, the check-out of that same row at the second instant, and a new open check-in |
| `Handlers.UpdateAttendance` | app.py:231-251 | 404 for an unknown id; 500 with the tables unchanged when the body is not JSON or check_out_time is not ISO-8601; otherwise exactly that record's supplied fields among status, notes and check_out_time change, the others stay, and a closed session stays closed |
| `Handlers.UpdateAttendancePreserves` | app.py:240-247 | an attendance update keeps the tables well formed |
| `Handlers.DeleteAttendance` | app.py:254-266 | 404 with the tables unchanged for an unknown id; otherwise it removes exactly the row at that id's position and leaves the users alone |
| `Handlers.DeleteAttendanceRemovesExactlyOne` | app.py:257-262 | with unique ids, the remaining records are exactly the records with another id |
| `Handlers.DeleteAttendancePreserves` | app.py:254-266 | deleting a record keeps the tables well formed |
| `RecordStore.Store.constructor` | app.py:319-321 | a new database has two empty, well-formed tables |
| `RecordStore.Store.CreateUser` | app.py:81-105 | the in-place create gives the reply and new tables of `Handlers.CreateUser`, keeps the tables well formed, and changes nothing on failure |
| `RecordStore.Store.UpdateUser` | app.py:122-142 | the in-place update gives the reply and new tables of `Handlers.UpdateUser`, keeps the tables well formed, and changes nothing on failure |
| `RecordStore.Store.DeleteUser` | app.py:145-157 | the in-place delete gives the reply and new tables of `Handlers.DeleteUser`, keeps the tables well formed, and changes nothing on failure |
| `RecordStore.Store.MarkAttendance` | app.py:180-217 | the in-place mark gives the reply and new tables of `Handlers.Mark`, keeps the tables well formed, and changes nothing on failure |
| `RecordStore.Store.UpdateAttendance` | app.py:231-251 | the in-place update gives the reply and new tables of `Handlers.UpdateAttendance`, keeps the tables well formed, and changes nothing on failure |
| `RecordStore.Store.DeleteAttendance` | app.py:254-266 | the in-place delete gives the reply and new tables of `Handlers.DeleteAttendance`, keeps the tables well formed, and changes nothing on failure |
| `Findings.MarkAsWrittenOpensTwo` | app.py:194-211 | as written, from tables with at most one open session per user and day, four marks in one day leave two open sessions for the same user and day |
| `Findings.FirstOpenOn` | app.py:194-197 | the corrected lookup finds the earliest open row of the user on the day, or nothing exactly when there is none |
| `Findings.MarkFixed` | app.py:180-217 | the corrected toggle keeps the error answers of the original (400 without user_id, 404 for an unknown user, tables unchanged) |
| `Findings.MarkFixedKeepsOneOpen` | app.py:194-211 | the corrected toggle keeps at most one open session per user and day, checks out exactly when the user has an open session today, and flips whether they have one |

## Left out

- HTTP routing, `request.get_json`, `jsonify`, `render_template`, the health check, `db.create_all` and the port setup are framework plumbing. Status codes and messages are reduced to `Reply` and `Failure`.
- The SQLAlchemy session is reduced to its effect. A failed handler leaves the tables unchanged. Rows come back in primary-key order.
- `generate_password_hash` is a function parameter of `CreateUser`. `check_password` is called by no handler and is not modelled.
- The clock is not modelled. `today` and `now` are parameters, and the model uses one reading for `date`, `check_in_time` and `check_out_time`. So a request that straddles midnight is not represented.
- `strptime`, `fromisoformat` and `strftime` are not modelled. Parse results arrive as `DateArg` and `TimeArg`. `to_dict` leaves instants and days unformatted, and its keys are a `Key` datatype instead of strings.
- SQLite's type-affinity rules are not modelled. They decide which `user_id` texts compare equal to an integer id, for example `'07'`, and the result arrives as a `UserArg`.
- JSON values other than strings and ids are not modelled: nulls, numbers given as strings, and lists.
- The `String(80)`-style lengths are not enforced by SQLite and are not modelled.
- Queries.Percent: the ratio is exact; the floating-point division and `round(..., 2)` are not modelled.
- Concurrency is not modelled. The model is sequential, so the race between two simultaneous `mark_attendance` calls is not captured.
- `to_dict` raises when a record's owner is missing. That case cannot arise on well-formed tables. It is modelled for listing and fetching (a 500). It is not modelled for the row that `update_attendance` answers with after its commit.
- RecordStore.Store.MarkAttendance follows the code as written. The corrected toggle is `Findings.MarkFixed`, and no other part of the model depends on which toggle is used.

## Findings

| source | as written | input that shows it | evidently intended | confidence | as-written member | corrected member |
|---|---|---|---|---|---|---|
| app.py:194-211 | the toggle looks only at the first row of (user_id, today): once it is closed, every later mark of the day is a check-in | a known user with no row today marks four times: check-in, check-out, check-in, check-in; the last two rows are both open | at most one open session per user and day, with a mark closing the open one | not executed; high | `Findings.MarkAsWrittenOpensTwo` | `Findings.MarkFixedKeepsOneOpen` |
