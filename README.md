# Doctor availability ledger

A Dafny model of `InDatabaseAvailabilityService`, the part of a doctor-scheduling
backend that keeps the table of availability slots. Each slot row holds an id, a
doctor id, a day of the week, a location id, a start time, an end time and an
`is_available` flag (1 = open, 0 = booked). The service does five things:

- it adds a slot for a known doctor, unless a row already has the same doctor, day, start and end;
- it lists a doctor's open slots;
- it lists a doctor's booked slots;
- it books: it splits a `"start-end"` time string, finds the matching row and flips it from open to booked;
- it cancels by row id, setting the row back to open whatever its state.

Files:

- `requests.dfy` (module `Requests`): the two request bodies as plain datatypes.
- `split.dfy` (module `Split`): Python's `str.split` on one character, with `Join` as its inverse.
- `availability_service.dfy` (module `AvailabilityService`): holds the following.
  - The row datatype `Slot` (the flag is a `bool`, `true` standing for 1).
  - The error kinds that replace the source's `{"message": ...}` replies.
  - The table queries as pure functions.
  - The class `InDatabaseAvailabilityService`. Its fields are the doctor ids (`doctors`), the slot table in storage order (`slots`) and the id the storage assigns next (`nextId`, standing for `last_row_id`).
  - Its object invariant `Valid()`: ids are positive, below `nextId` and unique, and no two rows share the four-field key.

The SQL storage is replaced by the table itself. Each `SELECT` is a pure function over the rows: `FirstMatch`, `FindId` and `DoctorSlot`. Each `INSERT` or `UPDATE` assigns to `slots`. `doctor_exists` is membership in `doctors`.

The source has two crashes. The model turns each into an explicit error:

- `book_appointment` takes `time.split('-')[1]` without checking that a `-` exists. The model answers `InvalidTimeRange`. The split comes before the doctor check in the source, so this error wins over `DoctorNotFound`.
- `book_appointment` reads `dict_result[0]` without checking that a row matched. The model answers `SlotNotFound`.

Booking ignores the location when matching. The booking's reply carries the location from the request, not the one stored in the row.

## Model

| member | source | states |
|---|---|---|
| Split.SplitOn | app/services/availability_service.py:91-92 | `split('-')` always gives at least one piece; no piece contains `-`; there is exactly one piece iff the input has no `-` |
| Split.JoinSplit | app/services/availability_service.py:91-92 | splitting loses nothing: joining the pieces with `-` gives the input back |
| Split.SplitOnNoSeparator | app/services/availability_service.py:91-92 | a string without `-` splits into itself alone, so `[1]` does not exist |
| Split.SplitOnFirstSeparator | app/services/availability_service.py:91-92 | the text before the first `-` is the first piece, and the rest is split after that `-` |
| Split.SplitJoin | app/services/availability_service.py:91-92 | pieces without `-`, joined and split again, are the same pieces |
| AvailabilityService.ParseTimeRange | app/services/availability_service.py:91-92 | the time string fails, with `InvalidTimeRange`, exactly when it holds no `-`; a parsed start and end hold no `-` |
| AvailabilityService.ParseTimeRangeSound | app/services/availability_service.py:91-92 | the parsed start, a `-` and the parsed end are a prefix of the input, followed by nothing or by another `-` |
| AvailabilityService.ParseTimeRangeComplete | app/services/availability_service.py:91-92 | `a-b`, with or without a further `-...` tail, parses to start `a` and end `b` when neither holds `-` |
| AvailabilityService.FirstMatch | app/services/availability_service.py:97-104 | the lookup on (doctor_id, day_of_week, start_time, end_time) finds nothing iff no row has that key, otherwise the first row that has it |
| AvailabilityService.FindId | app/services/availability_service.py:125-128 | the lookup by id finds nothing iff no row carries the id, otherwise the first row that does |
| AvailabilityService.DoctorSlot | app/services/availability_service.py:150-158 | a row is in the result iff it is in the table, belongs to the doctor and has the requested flag; each such row appears exactly as often as in the table |
| AvailabilityService.DoctorRows | app/services/availability_service.py:152-157 | a row is in the result iff it is in the table and belongs to the doctor, as often as in the table (reference for the partition lemma) |
| AvailabilityService.OpenBookedPartition | app/services/availability_service.py:74-86 | a doctor's open and booked lists are disjoint, and together they hold exactly that doctor's rows, counted with multiplicity |
| AvailabilityService.SetFlag | app/services/availability_service.py:108-111 | the UPDATE by id sets the flag of every row carrying the id; it changes no other field and no other row |
| AvailabilityService.SetFlagAtUniqueId | app/services/availability_service.py:135-138 | with unique ids, the lookup by id finds the one row carrying it, and the UPDATE changes that row's flag only |
| AvailabilityService.SetFlagKeepsUnique | app/services/availability_service.py:108-111 | changing flags keeps ids and four-field keys unique |
| AvailabilityService.AppendKeepsUnique | app/services/availability_service.py:40-54 | inserting a row whose key no row has and whose id is new keeps ids and keys unique |
| AvailabilityService.BookThenCancelRestores | app/services/availability_service.py:108-138 | booking an open row and then cancelling its id finds that row again and restores the table exactly |
| AvailabilityService.CancelIdempotent | app/services/availability_service.py:125-139 | cancelling twice leaves the same table as cancelling once, and the second lookup finds what the first found |
| AvailabilityService.RowsWithId | app/services/availability_service.py:125-128 | the rows the lookup by id returns: those carrying the id; the list is empty iff `FindId` finds nothing |
| AvailabilityService.CancelAsWritten | app/services/availability_service.py:122-139 | `cancel_appointment` as written answers `Ok(id)` for every id; on an id some row carries, with unique ids, its new table is the one `CancelAppointment` gives |
| AvailabilityService.CancelAsWrittenAcceptsUnknownId | app/services/availability_service.py:125-131 | as written, an id no row carries is answered as a successful cancel and the table is unchanged |
| AvailabilityService.CancelAsWrittenOnEmptyTable | app/tests/availability_tests.py:101-106 | as written, cancelling id 999 on an empty table answers 999, where the test expects a not-found message |
| AvailabilityService.InDatabaseAvailabilityService.constructor | app/services/availability_service.py:32-33 | a new ledger has the given doctors, an empty table and first id 1, and satisfies the invariant |
| AvailabilityService.InDatabaseAvailabilityService.DoctorExists | app/services/availability_service.py:142-148 | (no contract) `doctor_exists` is membership of the id in the doctors table; the contracts of the operations that call it state its effect |
| AvailabilityService.InDatabaseAvailabilityService.GetAvailableSlots | app/services/availability_service.py:69-76 | an unknown doctor gives `DoctorNotFound`; otherwise the result holds exactly the doctor's open rows, each as often as in the table |
| AvailabilityService.InDatabaseAvailabilityService.GetBookedAppointments | app/services/availability_service.py:79-86 | an unknown doctor gives `DoctorNotFound`; otherwise the result holds exactly the doctor's booked rows, each as often as in the table |
| AvailabilityService.InDatabaseAvailabilityService.AddDoctorAvailability | app/services/availability_service.py:35-66 | covers three cases and keeps the invariant in each (details below the table) |
| AvailabilityService.InDatabaseAvailabilityService.BookAppointment | app/services/availability_service.py:89-120 | checks each failure in the source's order; a success books one row (details below the table) |
| AvailabilityService.InDatabaseAvailabilityService.CancelAppointment | app/services/availability_service.py:122-139 | an unknown id gives `AppointmentNotFound` with no change; a known id answers that id and sets only that row's flag to open, whatever it was |
| AvailabilityService.BookThenCancel | app/services/availability_service.py:89-139 | a successful booking followed by cancelling the returned id answers that id and leaves the table, the doctors and the next id exactly as before |
| AvailabilityService.BookCancelBook | app/services/availability_service.py:89-139 | book, cancel the booking, book the same request again: the second booking gives the same answer as the first, and a successful first booking is cancelled by its own id; the table ends unchanged after a failed booking, and with only the booked row's flag cleared after a successful one; the doctors and the next id do not change |
| AvailabilityService.CancelTwice | app/services/availability_service.py:122-139 | two cancels of the same id give the same answer, and the table ends as after one; the doctors and the next id do not change |
| AvailabilityService.ScenarioAdd | app/services/availability_service.py:35-86 | ensures a newly allocated ledger holding the one new open slot, with next id 2; the assertions in its body show the slot listed as open and not as booked, and the same day and times rejected as a duplicate at another location |
| AvailabilityService.ScenarioBook | app/services/availability_service.py:89-120 | ensures the slot ends booked and the doctors and the next id are unchanged; the assertions in its body show it leaving the open list and appearing in the booked list |
| AvailabilityService.ScenarioBookFailures | app/tests/availability_tests.py:77-90 | ensures the table, the doctors and the next id are unchanged; the assertions in its body show each failure: booking a booked slot, booking for an unknown doctor, booking a time without `-` |
| AvailabilityService.ScenarioCancel | app/services/availability_service.py:122-139 | ensures the slot ends booked again and the doctors and the next id are unchanged; the assertions in its body show the cancel reopening it and listing it as open again, an unknown id not found, and the rebooking succeeding |
| AvailabilityService.Scenario | app/tests/availability_tests.py:13-106 | the four parts above run in sequence on one newly allocated ledger: add, list, book, list, failing bookings, cancel, list, book again; the ledger ends with the one slot booked under id 1 and next id 2 |

More on two of the rows above:

- **AddDoctorAvailability.** It has three outcomes, and the invariant holds after each:
  - An unknown doctor gives `DoctorNotFound` and changes nothing.
  - A row with the same key, open or booked, gives `AvailabilityAlreadyPresent` and changes nothing.
  - Otherwise the call appends exactly one open row with a fresh id and the request's fields, and the next id grows by one. It returns that row and leaves every earlier row as it was.
- **BookAppointment.** It checks the failures in the source's order:
  1. No `-` in the time gives `InvalidTimeRange`.
  2. An unknown doctor gives `DoctorNotFound`.
  3. No matching row gives `SlotNotFound`.
  4. A booked row gives `AppointmentAlreadyExists`.

  None of these changes anything. On success, exactly that row's flag becomes booked. The reply carries the row's id, the request's doctor, location and day, and the parsed times.

## Left out

- The doctors table is only read here. Adding or removing doctors belongs to the doctor service, which is not part of this model, so the set of doctor ids is fixed when the ledger is created.
- The SQL text and the `DB` class (`app/database/db.py`) are not part of this model. The table is an in-memory sequence of rows in storage order, and `last_row_id` is a counter starting at 1 (the source asserts the id is non-zero).
- The flag in replies: the source builds its replies with `DoctorAvailability(...)` without passing `is_available`, so the flag the client sees is that model class's default. That class (`app/models/doctor.py`) is not part of this model. Replies here carry the row's actual flag: open after adding, booked after booking, the stored value in the lists.
- GetAvailableSlots, GetBookedAppointments: the source builds response objects from the selected columns. The model returns the rows themselves.
- The message strings of the failure replies are replaced by error kinds. Some kinds carry the doctor id or slot id that the message quotes.
- Concurrency: the lookup and the following write are not atomic in the source. The model treats each operation as atomic, so the window in which two callers both pass the duplicate or availability check is not modelled.
- HTTP routing, request validation, the exception handler and the shutdown hook are not modelled.

## Findings

| source | as written | input that shows it | evidently intended | confidence | as-written member | corrected member |
|---|---|---|---|---|---|---|
| app/services/availability_service.py:125-131 | `cancel_appointment` treats the lookup's result as missing only when it `is None`. Everywhere else in the service (lines 45, 76, 104) that result is a list of rows, and an empty list is not `None`. | cancel id 999 on a table with no row 999: the reply is `999` and nothing changes | an id no row carries is answered with "No such appointment exist", as the test at app/tests/availability_tests.py:101-106 expects | medium, not executed (the storage layer's return value is not part of this model) | AvailabilityService.CancelAsWrittenAcceptsUnknownId | AvailabilityService.InDatabaseAvailabilityService.CancelAppointment |
