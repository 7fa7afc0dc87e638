# Seat-notification registry: the deduplicating insert

This project models the core of the `amc-seats-backend` service: the
`POST /notifications` handler that records a user's wish to be told when a
seat of a showing becomes available. The handler looks for a row of the
`seat_notifications` table with the request's email, seat number and
seating-map URL; if one exists it answers `{"exists": true}` and writes
nothing, otherwise it adds one row built from the request, commits it and
answers `{"exists": false}`. The table declares a primary key, length limits
on its three string columns, NOT NULL on every column and a unique constraint
on `(user_email, url, seat_number)`.

Files:

- `wrappers.dfy` (module `Wrappers`): the `Option` datatype.
- `seat_notification.dfy` (module `SeatNotificationSchema`): the row
  datatype, the column limits, the table-wide constraints (`ValidTable`) and
  lemmas about the set of keys of a table.
- `notification_service.dfy` (module `NotificationService`): the request,
  the existence query (`Matches`, `FirstMatch`), the handler as a function on
  a table state (`Create`) with its lemmas, and the class
  `NotificationTable`. Its method `FindFirst` reads the table; `Insert` and
  `CreateNotification` update it in place and are proved against `Create`
  and the schema's constraints.

Modelling decisions:

- Timestamps and dates (`created_at`, `show_date`, the request's `showDate`)
  are opaque integers. The clock that supplies `created_at` is the `now`
  parameter.
- The store's `add` and `commit` are the method `Insert`: it assigns the next
  id from a counter, and commits exactly when the table with the new row
  still satisfies every constraint of the schema: the column lengths, the
  unique constraint and an id that fits the Integer column (32-bit signed,
  as in PostgreSQL and MySQL). A refused row leaves the table unchanged. The
  handler does no validation of its own, so an overlong email, seat or URL
  passes the existence query and ends as `CommitFailed` (the exception the
  handler does not catch). This is what PostgreSQL does for an overlong value
  whose extra characters are not all blanks; values whose excess is only
  trailing blanks are cut to the column length instead (see "## Left out").
- `.first()` is modelled as the first matching row in table order. In a
  table satisfying the unique constraint at most one row can match, so the
  choice does not affect the reply.
- String comparison in the query is exact equality of character sequences.
- Every column is NOT NULL, so every field of the row datatype is a plain
  value; no field is optional.
- The handler takes one seat, one URL and one show date per request; seat
  lists, showtime references and theater/movie resolution are not part of it.
- `KeysOfSnoc`, `KeysBound`, `UniqueKeysSnoc` and `UniqueKeysIffKeyCount`
  give an equivalent statement of the unique constraint in terms of the set
  of keys; `UniqueKeysSnoc` is also what makes `Insert` refuse a repeated
  key.

## Model

| member | source | states |
|---|---|---|
| `NotificationService.Matches` | app/main.py:39-43 | the existence filter: email, seat number and url all equal the request's; the show date is not consulted |
| `NotificationService.NewRow` | app/main.py:50-55 | the row built from the request, with `created_at` taken from the insertion-time clock `now` (app/models/seat_notification.py:25) and the id the store assigns |
| `NotificationService.Create` | app/main.py:37-60 | one handler call on a table state: `{"exists": true}` and no write when a row matches; otherwise a commit failure and no write when a value is overlong or no id is left; otherwise one row appended, the counter advanced and `{"exists": false}` |
| `NotificationService.FirstMatch` | app/main.py:37-45 | the query finds no row exactly when no row has the request's email, seat and url; otherwise it returns the position of the first such row |
| `NotificationService.FirstMatchIgnoresShowDate` | app/main.py:39-43 | the query's result does not depend on the request's show date |
| `NotificationService.FirstMatchSeesOnlyKeys` | app/main.py:39-43 | two tables whose rows agree position by position on email, url and seat give the same query result, whatever their ids, creation times and show dates |
| `NotificationService.FirstMatchIsKeyLookup` | app/main.py:37-45 | the query finds a row exactly when the key (user_email, url, seat_number) of the row the handler would build is already in the table |
| `NotificationService.CreatePreservesValid` | app/main.py:37-58 | a handler call keeps the unique constraint, the column limits, distinct ids and every id below the counter |
| `NotificationService.CreateKeepsOldRows` | app/main.py:47-60 | every row present before the call is still present, at the same position and unmodified; the table grows by at most one row, and by one exactly when the answer is `{"exists": false}` |
| `NotificationService.CreateIdempotent` | app/main.py:37-60 | repeating an identical request leaves the table as the first call left it and answers `{"exists": true}`, unless the first commit failed, in which case it fails again (for the store as modelled, which refuses every overlong value) |
| `NotificationService.OtherShowDateReportsExisting` | app/main.py:40-48 | a request that differs from a stored row only in its show date is answered `{"exists": true}` and the table state is returned unchanged, so the stored show date is kept |
| `NotificationService.NotificationTable.FindFirst` | app/main.py:37-45 | returns no row exactly when no row matches email, seat and url; a returned row is in the table and matches |
| `NotificationService.NotificationTable.Insert` | app/main.py:57-58 | commits exactly when the table with the new row satisfies every schema constraint, that is when the values fit the columns, the next id fits the Integer column and the key is new; then the table gains one row with that id and the given values, otherwise nothing changes |
| `NotificationService.NotificationTable.CreateNotification` | app/main.py:31-60 | answers `{"exists": true}` exactly when a matching row exists, and then writes nothing; otherwise appends one row with the request's email, seat, url and show date, `created_at = now` and a fresh id, and answers `{"exists": false}`, or fails at commit when a value is overlong or no id is left, and writes nothing; it keeps the table valid |
| `NotificationService.NotificationTable.constructor` | app/models/seat_notification.py:17-30 | an empty table satisfies every constraint |
| `SeatNotificationSchema.ValidTable` | app/models/seat_notification.py:20-30 | the schema's constraints: unique (user_email, url, seat_number), distinct ids within the Integer column, and the 255/10/60 column lengths; NOT NULL holds because no field is optional |
| `SeatNotificationSchema.UniqueKeysIffKeyCount` | app/models/seat_notification.py:30 | no two rows share (user_email, url, seat_number) exactly when the table has as many distinct keys as rows |
| `SeatNotificationSchema.KeysBound` | app/models/seat_notification.py:30 | a table never has more distinct keys than rows |
| `SeatNotificationSchema.UniqueKeysSnoc` | app/models/seat_notification.py:30 | appending a row keeps the unique constraint exactly when its key is not already present |
| `SeatNotificationSchema.KeysOfSnoc` | app/models/seat_notification.py:30 | the keys of a table with one more row are the old keys plus that row's key |
| `SeatNotificationSchema.AppendValidIff` | app/models/seat_notification.py:20-30 | appending a row with a new id keeps every constraint of the table exactly when it fits the column lengths (255, 10, 60), its id fits the Integer column and its key is new |

## Left out

- Web plumbing: the FastAPI application, the CORS middleware and its origin list, the debug `print` calls and the injection of the database session.
- The database itself: queries, sessions, transactions and connection handling are replaced by the in-memory table of `NotificationTable`.
- The race between the existence query and the insert under concurrent requests: the model handles one request at a time.
- The conversion of the request's `date` to the `DateTime` column and the reading of the UTC clock: both are opaque values passed in.
- NotificationService.Create: PostgreSQL cuts a `varchar(n)` value whose characters past n are all blanks to n characters and commits it; the model refuses every overlong value. For such a request the program answers `{"exists": false}` and stores the cut value; an identical repeat then misses the exact-match query and fails at commit on the unique constraint, where the model answers `CommitFailed` both times (and `CreateIdempotent` promises the model's behaviour, not this one). The database engine is not part of this model, so its padding rules are left out.
- NotificationService.NotificationTable.Insert: does not model the cutting of trailing blanks past a column's length described above; an overlong value is always refused.
- Whether a failed commit consumes an id: the model leaves the counter unchanged.
- The database engine: the Integer column is modelled as 32-bit signed; an engine with wider integers would run out of ids later.
- `app/models/showtime.py`, `app/models/movie.py` and `app/models/theater.py`: declarations that the handler does not use.
- Theater, movie and showtime resolution, the past-showtime guard, unsubscribing and email sending: none of these is part of the handler modelled here.
