# SYMUN attendance store

A model of the data side of the SYMUN barcode attendance desk (`scanner.py`).
The desk keeps two SQLite tables:

- `members`: keyed by barcode, holding a name and a role.
- `attendance`: an append-only log of scans. Each row has an AUTOINCREMENT
  `id` and copies the barcode, name and role at scan time, together with a
  `date_time` text in the form `YYYY-MM-DD HH:MM:SS`.

The model covers what each window handler does to those tables:

- registering a member from three prompt answers;
- marking attendance from the scanner entry;
- listing the log newest first;
- removing a member;
- clearing the log after a login check.

Modules:

- `Wrappers`: `Option`, the result of a prompt that the operator may cancel.
- `Collation`: SQLite's BINARY text order (code point by code point, with a
  proper prefix first). Proved to be a strict total order, with a lemma for
  comparing concatenations whose first parts have the same length.
- `Timestamp`: calendar date-times and the `"%Y-%m-%d %H:%M:%S"` rendering.
  Also its inverse parser and the proof that text order on rendered stamps
  is time order.
- `Whitespace`: Python's `str.strip()` with its whitespace set.
- `AttendanceStore`: the class `Store` holding both tables (`members` as a
  map, `attendance` as a sequence, `nextId` as the AUTOINCREMENT counter),
  its invariant, the handlers, and the `ORDER BY date_time DESC` listing.
- `Scenarios`: client methods that drive the store the way the buttons do,
  with their outcomes asserted from the handlers' contracts.

The store's invariant (`Store.Valid`) says two things:

- Every registered barcode, name and role is non-empty.
- The log is one that scans can have written. Every record has a stripped,
  non-empty barcode, a non-empty name and role, and a well-formed stamp.
  Ids strictly increase and stay below the counter.

Every handler keeps the invariant.

## Model

| member | source | states |
|---|---|---|
| AttendanceStore.Store.constructor | scanner.py:12-29 | A new database has both tables empty, the AUTOINCREMENT counter at 1, and the store invariant. |
| AttendanceStore.Store.Register | scanner.py:32-51 | The barcode, name and role prompts are checked in order, and the first one cancelled or empty aborts with no write. A barcode already present is refused and both tables stay unchanged. Otherwise the member is added under the barcode as typed (not stripped). The log and counter never change. |
| AttendanceStore.Store.Scan | scanner.py:53-73 | The entry is stripped; an empty result writes nothing. An unregistered key writes nothing and reports an unknown barcode. A registered key appends exactly one record with the next id, the stripped key, the member's current name and role, and the formatted clock reading. Members are never changed and the invariant is kept. |
| AttendanceStore.ScanWritesScannedRecord | scanner.py:55-69 | The record a scan writes has a non-empty stripped barcode, a non-empty name and role, and a well-formed stamp. |
| AttendanceStore.AppendKeepsValid | scanner.py:68-69 | Appending a scanned record under the current counter value gives a valid log for the incremented counter. |
| AttendanceStore.ValidLogFacts | scanner.py:21-27 | In a valid log, every record is a scanned one with an id below the counter, and ids strictly increase in insertion order. |
| AttendanceStore.Store.ListAttendance | scanner.py:75-78 | The listing is a permutation of the log. It is ordered newest first by `date_time` text, and therefore newest first in time. |
| AttendanceStore.InsertNewestFirst | scanner.py:77 | Inserting a row adds exactly that row to the multiset of rows. |
| AttendanceStore.SortNewestFirst | scanner.py:77 | Sorting yields the same multiset of rows. |
| AttendanceStore.InsertKeepsOrder | scanner.py:77 | Inserting into a newest-first sequence keeps it newest first. |
| AttendanceStore.SortIsNewestFirst | scanner.py:77 | The sorted rows are newest first by `date_time` text, for every input. |
| AttendanceStore.NewestFirstIsChronological | scanner.py:77 | For well-formed stamps, newest first by text means no row is listed before a strictly later one. |
| AttendanceStore.Store.Remove | scanner.py:120-125 | A cancelled or empty answer does nothing. Otherwise that barcode is deleted from `members`, which is a no-op when it is absent. Attendance records and the counter are untouched. |
| AttendanceStore.Store.Reset | scanner.py:92-103 | If either login answer differs from the one accepted user name and password (a cancel included), the result is invalid credentials. If authorised but not confirmed, the result is declined. Only when authorised and confirmed is the whole log emptied. Members and the counter are never changed. |
| Timestamp.Format | scanner.py:67 | The rendered stamp is always 19 characters long. |
| Timestamp.Parse | scanner.py:67 | Any date-time the parser accepts is a valid calendar date-time. |
| Timestamp.ParseFormat | scanner.py:67 | Parsing a rendered stamp gives back the date-time. |
| Timestamp.FormatParse | scanner.py:67 | Rendering what the parser accepted gives back the text, so every accepted text is a rendered stamp. |
| Timestamp.WellFormedIffParses | scanner.py:67 | A text is a rendered stamp exactly when the parser accepts it. |
| Timestamp.FormatOrder | scanner.py:67 | One rendered stamp sorts before another exactly when its date-time is earlier. The stamps are equal exactly when the date-times are. |
| Timestamp.WellFormedOrder | scanner.py:77 | For two rendered stamps, text order coincides with time order and text equality with time equality. |
| Timestamp.SortsAfterIsNoEarlier | scanner.py:77 | A rendered stamp that sorts at or after another is not earlier in time. |
| Timestamp.PadOrder | scanner.py:67 | Zero-padded fields of one width compare as text exactly as their numbers compare, and are equal exactly when the numbers are. |
| Timestamp.FieldThen | scanner.py:67 | A padded field followed by the rest compares field first, then the rest. |
| Timestamp.ValueOfPad | scanner.py:67 | Reading back a zero-padded field gives the number. |
| Timestamp.PadOfValue | scanner.py:67 | Padding the value of a digit string to its length gives the string back. |
| Timestamp.FromMonthOrder | scanner.py:67 | The part of a stamp from the month on compares month first, then the rest. |
| Collation.Irreflexive | scanner.py:77 | No text sorts before itself. |
| Collation.Asymmetric | scanner.py:77 | If one text sorts before another, the reverse does not hold and the two differ. |
| Collation.Transitive | scanner.py:77 | Text order is transitive. |
| Collation.Total | scanner.py:77 | Any two texts are ordered one way or the other, or are equal. |
| Collation.AppendSameLength | scanner.py:77 | Concatenations whose first parts have equal length compare by the first parts, then by the rest. They are equal exactly when both parts are. |
| Whitespace.Strip | scanner.py:55 | The stripped text is no longer than the input and has no whitespace at either end. |
| Whitespace.StripSurrounds | scanner.py:55 | The stripped text is a stretch of the input with only whitespace before and after it. |
| Whitespace.StripEmpty | scanner.py:55 | An entry strips to nothing exactly when it is all whitespace (the empty entry included). |
| Whitespace.StrippedIsFixed | scanner.py:55 | Stripping leaves a text unchanged exactly when it has no whitespace at either end. |
| Whitespace.StripIdempotent | scanner.py:55 | Stripping twice is stripping once. |
| Whitespace.StripNeverYields | scanner.py:34-55 | No entry strips to a text that stripping would change. So a member registered with whitespace around the barcode can never be scanned. |

## Left out

- The window, its buttons, the dialogs and the message boxes are left out. Each prompt becomes an `Option<string>` parameter, where `None` means cancelled. The yes/no confirmation becomes a `bool`.
- SQLite itself is left out: the connection, cursors and `commit`. Each handler's write is modelled as one atomic step. The database file outlives a run, but the constructor models only a fresh file.
- `datetime.now()` becomes the `now` parameter of `Scan`.
- The AUTOINCREMENT id is modelled as a counter that only grows and that deleting rows never lowers. Concrete rowid allocation is left out.
- AttendanceStore.Store.ListAttendance: returns whole records, although the query selects only `name`, `role` and `date_time`. Which of several rows with equal stamps comes first is not fixed, as SQLite leaves it unspecified.
- The text rendering of the log (`view_attendance_log`) and of the member list (`member_list`), including their "No … found." messages, is left out as display only.
- The member-list window fails with a NameError when the members table is empty: `remove_member` is defined only when there are members. That is a window-construction problem. `Remove` is modelled as the handler it is when it exists, and on an empty table it is a no-op.
- Timestamp.Format: always pads the year to four digits. The platform `strftime` may leave years before 1000 unpadded; such clock readings are outside any realistic run.
- Time zones, clock changes and leap seconds are left out: a stamp is the local wall-clock reading, taken as given.
