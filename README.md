# Event_Today, modelled in Dafny

Event_Today is a small Flask application for running events. A signed-in
user creates an event. The application derives a public URL and a QR-code
file name from the event's name and start time. Attendees open that URL and
submit a form without signing in. The organiser sees attendance counts on a
dashboard and downloads the submissions as CSV.

This project models the core of `app.py`:

- the name-to-slug rule `re.sub(r'\W+', '_', name)`, the `%Y%m%d_%H%M` time
  suffix, and the path and QR file name built from them;
- the three tables (Users, Events, Submissions) and the session, held by one
  class, `App.EventApp`, whose methods are the route handlers.

Modules:

- `Wrappers`: `Option`.
- `Sequences`: associativity of concatenation, and the shape of a sequence extended by one element, shared by the proofs.
- `PyText`: Python's `str.strip`. `IsSpace` is the set of characters `str.isspace` accepts.
- `Slug`: the slug rule, as a recursive function and as an independent scanner, proved equal.
- `Clock`: date-times, the chronological order, and the time suffix with a parser that inverts it.
- `Paths`: the stem, the event path, the QR file name and the QR target URL.
- `Ordering`: a descending sort by an integer key, used for every `ORDER BY ... DESC`.
- `Store`: the records and the SQL statements. Each query is a function over the tables; each `UPDATE` and `DELETE` is a function from old table to new table. The `INSERT`s are appends in the handlers. Lemmas show that every write keeps the tables consistent.
- `App`: the handlers. A handler that writes says exactly what each table it writes becomes. A handler that reads says what it returns in terms of the `Store` queries.
- `Scenarios`: concrete names, and request sequences: create then edit, delete then visit, edit then reopen, submit then export, and a create under a session whose user is gone.

The stored URL is fixed at creation. The edit page instead recomputes the
QR file name from the current name and start time (`app.py:237-241`).
`Paths.QrFileFollowsPath` and `Scenarios.EditThenReopen` pin that down: the
two name the same stem exactly when the edit kept the slug and the start minute.

Behaviour of the code worth knowing:

- `logout` clears the session without checking that anyone was signed in.
- Deleting an event makes its URL answer "Event not found" only if no other event has the same URL. Nothing keeps URLs unique: two names with the same slug at the same minute collide (`Paths.PathCollision`, `Scenarios.TownHallCollision`).
- Editing, deleting and exporting check only that someone is signed in, not that they created the event.
- The session is a signed cookie, so it may name a username the Users table no longer has (the row was removed after login, or the cookie was signed with the application's fixed key). Creating an event then answers "User not found" and stores nothing (`Scenarios.StaleSessionCreate`).

## Model

| member | source | states |
|---|---|---|
| PyText.Strip | app.py:44-45 | the result has no whitespace at either end, and the input is the result with runs of whitespace only before and after it |
| PyText.StripIdempotent | app.py:44-45 | stripping twice gives the same result as stripping once |
| Slug.Slugify | app.py:135 | the slug holds only word characters and is never longer than the name |
| Slug.SlugifyIsScan | app.py:135 | the recursive slug function equals a left-to-right scanner that emits one `_` when a run of non-word characters starts and skips the rest of that run |
| Slug.SlugifyKeepsWords | app.py:135 | a leading block of word characters, `_` included, is copied unchanged and in order |
| Slug.SlugifyCollapsesRun | app.py:135 | a non-empty maximal run of non-word characters becomes exactly one `_` |
| Slug.SlugifyFixesWords | app.py:135 | a name made only of word characters is its own slug |
| Slug.SlugifyIdempotent | app.py:135 | slugifying a slug changes nothing |
| Slug.SlugifyJoinsWords | app.py:135 | two words joined by any non-empty run of non-word characters become the two words joined by one `_` |
| Clock.Before | app.py:132 | definition: Python's `<` on datetimes, field by field; the create and edit handlers refuse `end <= start` as `!Before(start, end)` (also app.py:225); its meaning as an order is stated by Clock.KeyOrdersChronologically |
| Clock.KeyOrdersChronologically | app.py:89 | the integer sort key of a date-time orders exactly as Python's datetime comparison, and equal keys mean equal date-times |
| Clock.Pad | app.py:136 | a zero-padded field has exactly the requested width, only digits, and reads back as the number |
| Clock.TimeSuffix | app.py:136 | the suffix is 13 characters: 8 digits, `_`, 4 digits |
| Clock.ParseSuffix | app.py:136 | whatever it parses is a well-formed date-time |
| Clock.SuffixRoundTrip | app.py:136 | parsing the suffix of a date-time gives that date-time back |
| Clock.SuffixInjective | app.py:136 | two date-times have the same suffix exactly when they are equal |
| Paths.Stem | app.py:135-137 | the stem holds only word characters and is at most 14 characters longer than the name |
| Paths.EventPath | app.py:137 | the path is `/event/` followed by word characters only; Paths.PathCollision states when two paths agree |
| Paths.QrFileName | app.py:151 | the file name is word characters only followed by `.png`; Paths.PathAndFileShareStem ties it to the path |
| Paths.PathAndFileShareStem | app.py:137-151 | the event path after `/event/` and the QR file name before `.png` are the same text |
| Paths.StemCollision | app.py:137 | two events get the same stem exactly when their names have the same slug and they start at the same minute |
| Paths.PathCollision | app.py:151 | two events get the same path, and the same QR file name, exactly when their slugs and start times agree |
| Paths.TrimSlashes | app.py:138 | `rstrip("/")`: the result is a prefix of the host, only slashes were removed, and it does not end in a slash |
| Paths.QrTarget | app.py:138 | the QR image encodes a URL that ends with the event path |
| Paths.QrFileFollowsPath | app.py:237-239 | the file name the edit page derives equals the created path's stem plus `.png` exactly when the slug and the start are unchanged |
| Ordering.InsertDesc | app.py:89 | inserting into a descending list keeps it descending, adds exactly that element, and puts either it or the old first row first |
| Ordering.SortDesc | app.py:89 | `ORDER BY ... DESC`: the result is in descending key order and a permutation of the input |
| Store.First | app.py:61 | `fetchone`: a returned row is in the table and satisfies the condition, and nothing is returned exactly when no row does |
| Store.Filter | app.py:265 | `WHERE`: exactly the rows that satisfy the condition; when every row does, the whole table |
| Store.FilterCounts | app.py:265 | `WHERE` keeps each satisfying row as often as the table holds it, and no other row |
| Store.FilterKeepsDistinct | app.py:253-254 | a column distinct across the table stays distinct after a `WHERE` |
| Store.Distinct | app.py:95 | `DISTINCT`: each row of the input exactly once |
| Store.PasswordMatches | app.py:57-59 | definition: the stored hash equals the digest of the password under UTF-16LE or under UTF-8; used by Store.UserByCredentials and App.EventApp.Login |
| Store.Authenticates | app.py:59 | definition: the login query's `WHERE` on one row; used by Store.UserByCredentials and App.EventApp.Login |
| Store.UserByCredentials | app.py:57-61 | a user is found exactly when some user has that username and a stored hash matching the password under UTF-16LE or UTF-8 |
| Store.UserByName | app.py:141-142 | a user is found exactly when some user has that username |
| Store.IsAttendee | app.py:298 | definition: `Username=? OR EmployeeID=?` on one row, where a NULL employee id matches nothing; used by Store.AttendeeUserId |
| Store.AttendeeUserId | app.py:297-302 | an id is found exactly when some user has the name as username or the given employee id (a NULL employee id matches nothing), and it is such a user's id; none otherwise |
| Store.EventById | app.py:213-214 | an event is found exactly when one has that id |
| Store.EventByUrl | app.py:281-285 | an event is found exactly when one has that URL |
| Store.SubmissionsOf | app.py:265-266 | exactly the submissions of that event; it is a `WHERE`, so Store.FilterCounts gives each row's multiplicity |
| Store.Attendance | app.py:84 | definition: `COUNT(S.SubmissionID)` is the number of rows Store.SubmissionsOf returns; Store.AttendanceZero states when it is 0 |
| Store.SubmissionsOfAppend | app.py:304-307 | in table order, a newly inserted submission comes after the event's earlier ones, which keep their order |
| Store.AttendanceZero | app.py:84-86 | an event's count is 0 exactly when no submission refers to it, as `COUNT` over a `LEFT JOIN` gives |
| Store.UpdateEvent | app.py:229-231 | the `UPDATE` changes only the name, description, start and end of the rows with that id; ids, URLs, creators and every other row stay |
| Store.UpdateKeepsConsistency | app.py:229-231 | an update with an end after the start keeps distinct ids, valid times and foreign keys |
| Store.InsertEventKeepsConsistency | app.py:159-165 | inserting an event with the next id, valid times and an existing creator keeps the tables consistent |
| Store.InsertSubmissionKeepsConsistency | app.py:304-307 | inserting a submission with the next id, an existing event and an existing or absent user keeps the tables consistent |
| Store.DeleteKeepsConsistency | app.py:253-254 | deleting the submissions and then the event leaves no dangling reference |
| Store.WithoutEvent | app.py:254 | `DELETE FROM Events`: exactly the rows with another id remain; an unknown id removes nothing |
| Store.WithoutEventKeepsDistinct | app.py:254 | deleting events keeps event ids distinct |
| Store.WithoutSubmissionsOf | app.py:253 | `DELETE FROM Submissions`: exactly the rows of other events remain; nothing is removed when the event has none |
| Store.WithoutSubmissionsKeepsDistinct | app.py:253 | deleting submissions keeps submission ids distinct |
| Store.Summaries | app.py:83-88 | one row per event, carrying its columns and its attendance count |
| Store.CreatedBy | app.py:87 | `WHERE E.CreatorID=?`: exactly the user's events; Store.CreatedEvents states the dashboard list built from it |
| Store.SummariesMembership | app.py:83-88 | a row is among the summaries exactly when it summarises one of the events |
| Store.CreatedMembership | app.py:82-90 | a row is in the sorted summary list exactly when it summarises an event the user created |
| Store.CreatedEvents | app.py:82-91 | the dashboard's created list: sorted by start time descending, one row per event the user created and no others, each with its count of submissions |
| Store.Listings | app.py:95 | the listed rows are exactly the projections of the given events |
| Store.JoinRows | app.py:95-98 | the inner join yields exactly the events with a submission by the user |
| Store.JoinedEvents | app.py:94-101 | the dashboard's joined list: sorted by start time descending, no row twice, exactly the events the user submitted to |
| Store.Views | app.py:194-203 | one view per submission, and exactly the views of the given submissions |
| Store.SubmissionFeed | app.py:186-192 | newest first, as many entries as the event's count, and exactly the views of that event's submissions |
| Store.CsvRow | app.py:265-271 | a row has as many cells as the header `Name, EmployeeID, Department, Timestamp` (`Store.CsvHeader`), and each cell holds the value of the column its header cell names (`Store.Column`, the query's `row.Name`, `row.EmployeeID`, ...) |
| App.EventApp.constructor | app.py:35-36 | a fresh server with the given digest and encoders, the given users, empty event tables and no session satisfies the consistency invariant |
| App.EventApp.Login | app.py:43-68 | succeeds exactly when a user has the stripped username and a matching hash of the stripped password, then the session holds that user; on failure the session is unchanged |
| App.EventApp.Logout | app.py:112 | the session is empty afterwards |
| App.EventApp.CreateEvent | app.py:119-166 | no session, end not after start, and an unknown session user fail in that order and store nothing; otherwise exactly one event is appended with the next id, the derived path and the user as creator, and the confirmation shows the path and QR address |
| App.EventApp.EditEvent | app.py:210-232 | no session, an unknown id and end not after start fail in that order and change nothing; otherwise the table is the `UPDATE` of the old one |
| App.EventApp.EditPage | app.py:210-243 | the stored row of that id, with the QR address recomputed from its stored name and start, present exactly when that file exists |
| App.EventApp.DeleteEvent | app.py:249-255 | without a session nothing changes; otherwise exactly the event's submissions and the event are removed, and an unknown id changes nothing |
| App.EventApp.EventForm | app.py:281-287 | the form is shown exactly when some event has URL `/event/<slug>`, and it shows that event; otherwise "Event not found" |
| App.EventApp.SubmitAttendance | app.py:281-308 | for a known slug exactly one submission is appended with that event, the form fields, the clock reading and the matched user id; an unknown slug stores nothing |
| App.EventApp.Dashboard | app.py:76-101 | without a session, a redirect; otherwise the created and joined lists of the session user |
| App.EventApp.EventSubmissions | app.py:183-205 | without a session, 403; otherwise the event's submission feed |
| App.EventApp.ExportCsv | app.py:262-271 | without a session, a redirect; otherwise the header row and then one row per submission of the event, as many as its attendance count, in the model's table order |
| Scenarios.TownHallSlug | app.py:135 | "Town Hall", "Town-Hall" and "Town -- Hall" all become "Town_Hall" |
| Scenarios.TownHallSuffix | app.py:136 | 2024-01-10 09:00 becomes `20240110_0900` |
| Scenarios.TownHallCollision | app.py:137 | "Town Hall" and "Town-Hall" at the same start share their path and QR file name |
| Scenarios.CreateThenEdit | app.py:237-241 | after a successful create, the edit page of the new id shows the created row with the created URL, and the created QR address once the file exists |
| Scenarios.DeleteThenVisit | app.py:253-287 | after deleting the only event with a URL, visiting that URL answers "Event not found" |
| Scenarios.EditThenReopen | app.py:229-239 | after an edit the URL is unchanged, and the edit page looks for the created QR file exactly when the slug and start are unchanged |
| Scenarios.StaleSessionCreate | app.py:141-144 | with a session whose username no user has, creating an event answers "User not found" |
| Scenarios.SubmitThenExport | app.py:265-271 | a submission adds exactly one row to the event's CSV, holding the attendee's fields and the clock reading: the rows are the old ones plus that one as a multiset, and, in the model's table order, it comes last |

## Left out

- Flask itself: routing, templates, redirects, flashed messages, `jsonify` and response headers. Each handler returns a `Reply`: a value, or one of the failures `Unauthorized`, `InvalidCredentials`, `Validation(message)` and `NotFound(message)`.
- The GET branches of `/` and `/create`, which only render an empty form.
- pyodbc: the connection string, the shared global connection and cursor, and `commit`. The tables are fields of the class, and each handler runs to completion before the next, so concurrent requests are not modelled.
- SHA-256, UTF-16LE/UTF-8 encoding and `hexdigest().upper()`: opaque functions in a `Crypto` value given to the server.
- Python's Unicode `\W`: a word character here is an ASCII letter, digit or `_`.
- Years outside 1000..9999: `%Y` pads those differently from platform to platform.
- `datetime.strptime`: handlers take parsed date-times. Malformed form input and its error are not modelled.
- `datetime.now()`: the submission timestamp is a parameter, `now`.
- QR image generation and the filesystem: only the file name and the encoded URL are modelled; whether the file exists is a parameter of the edit page.
- The content of the `url_for("static", ...)` address: it is modelled as `/static/qrcodes/` plus the file name, which assumes the default static route.
- CSV quoting and escaping, the timestamp's text form in the CSV and in the JSON feed, and the download's file name: rows are sequences of fields.
- SQL collation: equality of names, URLs and passwords is exact string equality; case-insensitive and trailing-space-insensitive comparison is not modelled.
- Store.First: `fetchone` without `ORDER BY` may return any matching row; the model returns the first in table order.
- App.EventApp.CreateEvent: when several users share the session's username, the source may store any of their ids as the creator; the contract fixes the first in table order.
- App.EventApp.SubmitAttendance: when several users match (one by name, another by employee id), the source may store any of their ids; the contract fixes the first in table order.
- Store.SubmissionsOf: a `SELECT` without `ORDER BY` returns rows in an order the database chooses; the model reads every such query (the CSV export, the inner join) in insertion order. Store.SubmissionsOfAppend, App.EventApp.ExportCsv's row order and the "last row" of Scenarios.SubmitThenExport hold for that order only; the multiset statement of Scenarios.SubmitThenExport holds for any order.
- Order of ties: rows with equal start times (or equal timestamps) may come in either order in the database. The model fixes one order: ties keep table order. App.EventApp.Dashboard and App.EventApp.EventSubmissions return exactly that order. The contracts of the lists themselves (sorted, membership, counts) hold for any order of ties.
- `is_mobile`, the debug prints and `app.run`: no effect on the handlers' results.
- `hash.py`: it prints the hash of a fixed password and has no logic of its own.
