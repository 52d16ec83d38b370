/**
 * The member and attendance tables and the handlers that write them.
 *
 * `members` is the table keyed by barcode; `attendance` holds the scan
 * records in insertion order; `nextId` is the AUTOINCREMENT counter, which
 * deleting rows never lowers. Each handler's write is one atomic step.
 */
module AttendanceStore {
  import opened Wrappers
  import opened Collation
  import Timestamp
  import Whitespace

  /** A row of `members` without its key. */
  datatype Member = Member(name: string, role: string)

  /** A row of `attendance`: a snapshot of the member taken when the barcode was scanned. */
  datatype AttendanceRecord = AttendanceRecord(id: nat, barcode: string, name: string, role: string, dateTime: string)

  /** The three prompts of registration, in the order they are asked. */
  datatype Prompt = BarcodePrompt | NamePrompt | RolePrompt

  datatype RegisterOutcome = Cancelled(at: Prompt) | Added | DuplicateBarcode

  datatype ScanOutcome = Ignored | Marked(name: string, role: string, dateTime: string) | UnknownBarcode

  datatype ResetOutcome = InvalidCredentials | Declined | Cleared

  /** A prompt answer that passes `if not answer`: not cancelled and not the empty text. */
  predicate Given(answer: Option<string>)
  {
    answer.Some? && answer.value != []
  }

  /** The only operator account allowed to clear the log. */
  const OperatorName := "ashik"
  const OperatorPassword := "3487"

  /**
   * Both login answers match the account exactly; a cancelled prompt
   * (`None`) never does.
   */
  predicate Authorised(username: Option<string>, password: Option<string>)
  {
    username == Some(OperatorName) && password == Some(OperatorPassword)
  }

  // ---------------------------------------------------- the listing order

  /** Newest first: each `date_time` text is at least every later one (ties in any order). */
  predicate NewestFirst(rows: seq<AttendanceRecord>)
  {
    forall i, j :: 0 <= i < j < |rows| ==> TextLessEq(rows[j].dateTime, rows[i].dateTime)
  }

  function InsertNewestFirst(r: AttendanceRecord, rows: seq<AttendanceRecord>): (res: seq<AttendanceRecord>)
    ensures multiset(res) == multiset(rows) + multiset{r}
  {
    if rows == [] || !TextLess(r.dateTime, rows[0].dateTime) then [r] + rows
    else
      assert rows == [rows[0]] + rows[1..];
      [rows[0]] + InsertNewestFirst(r, rows[1..])
  }

  /** The rows of `ORDER BY date_time DESC`, one admissible order among ties. */
  function SortNewestFirst(rows: seq<AttendanceRecord>): (res: seq<AttendanceRecord>)
    ensures multiset(res) == multiset(rows)
  {
    if rows == [] then []
    else
      assert rows == [rows[0]] + rows[1..];
      InsertNewestFirst(rows[0], SortNewestFirst(rows[1..]))
  }

  lemma {:induction false} InsertKeepsOrder(r: AttendanceRecord, rows: seq<AttendanceRecord>)
    requires NewestFirst(rows)
    ensures NewestFirst(InsertNewestFirst(r, rows))
  {
    var res := InsertNewestFirst(r, rows);
    if rows == [] {
    } else if !TextLess(r.dateTime, rows[0].dateTime) {
      Total(r.dateTime, rows[0].dateTime);
      forall j | 0 <= j < |rows|
        ensures TextLessEq(rows[j].dateTime, r.dateTime)
      {
        TransitiveEq(rows[j].dateTime, rows[0].dateTime, r.dateTime);
      }
    } else {
      var tail := InsertNewestFirst(r, rows[1..]);
      InsertKeepsOrder(r, rows[1..]);
      forall k | 0 <= k < |tail|
        ensures TextLessEq(tail[k].dateTime, rows[0].dateTime)
      {
        assert tail[k] in multiset(tail);
        if tail[k] != r {
          assert tail[k] in multiset(rows[1..]);
          var i :| 0 <= i < |rows[1..]| && rows[1..][i] == tail[k];
          assert rows[i + 1] == tail[k];
        }
      }
      assert res == [rows[0]] + tail;
    }
  }

  lemma {:induction false} SortIsNewestFirst(rows: seq<AttendanceRecord>)
    ensures NewestFirst(SortNewestFirst(rows))
  {
    if rows != [] {
      SortIsNewestFirst(rows[1..]);
      InsertKeepsOrder(rows[0], SortNewestFirst(rows[1..]));
    }
  }

  /** Every `date_time` parses, and no row's reading is earlier than that of a row after it. */
  predicate NewestFirstInTime(rows: seq<AttendanceRecord>)
  {
    forall i, j :: 0 <= i < j < |rows| ==> Timestamp.NoEarlier(rows[i].dateTime, rows[j].dateTime)
  }

  /**
   * When every `date_time` is a well-formed "YYYY-MM-DD HH:MM:SS" text, a
   * listing that is newest first as text is newest first in time.
   */
  lemma NewestFirstIsChronological(rows: seq<AttendanceRecord>)
    requires NewestFirst(rows)
    requires forall i :: 0 <= i < |rows| ==> Timestamp.WellFormed(rows[i].dateTime)
    ensures NewestFirstInTime(rows)
  {
    forall i, j | 0 <= i < j < |rows|
      ensures Timestamp.NoEarlier(rows[i].dateTime, rows[j].dateTime)
    {
      Timestamp.SortsAfterIsNoEarlier(rows[i].dateTime, rows[j].dateTime);
    }
  }

  // ---------------------------------------------------------- the store

  /**
   * A record a scan can have written: stripped, non-empty barcode,
   * non-empty name and role, a well-formed timestamp.
   */
  ghost predicate ScannedRecord(r: AttendanceRecord)
  {
    && r.barcode != [] && Whitespace.IsStripped(r.barcode)
    && r.name != [] && r.role != []
    && Timestamp.WellFormed(r.dateTime)
  }

  /** Registered barcodes, names and roles are non-empty. */
  predicate ValidMembers(members: map<string, Member>)
  {
    forall b :: b in members ==> b != [] && members[b].name != [] && members[b].role != []
  }

  /**
   * The log scans can have written while the counter stood below `nextId`:
   * every record is a scanned one, and ids increase in insertion order and
   * stay below the counter.
   */
  ghost predicate ValidLog(log: seq<AttendanceRecord>, nextId: nat)
    decreases |log|
  {
    log == [] ||
      var last := log[|log| - 1];
      last.id < nextId && ScannedRecord(last) && ValidLog(log[..|log| - 1], last.id)
  }

  /** What a valid log says about each record and each pair of records. */
  lemma {:induction false} ValidLogFacts(log: seq<AttendanceRecord>, nextId: nat)
    requires ValidLog(log, nextId)
    ensures forall i :: 0 <= i < |log| ==> ScannedRecord(log[i]) && log[i].id < nextId
    ensures forall i, j :: 0 <= i < j < |log| ==> log[i].id < log[j].id
  {
    if log != [] {
      var init, last := log[..|log| - 1], log[|log| - 1];
      ValidLogFacts(init, last.id);
      assert forall i :: 0 <= i < |init| ==> log[i] == init[i];
    }
  }

  /** The record a scan of a registered barcode writes is a scanned record. */
  lemma ScanWritesScannedRecord(entry: string, m: Member, now: Timestamp.DateTime, id: nat)
    requires Whitespace.Strip(entry) != [] && m.name != [] && m.role != [] && Timestamp.Valid(now)
    ensures ScannedRecord(AttendanceRecord(id, Whitespace.Strip(entry), m.name, m.role, Timestamp.Format(now)))
  {
  }

  /** Appending a scanned record with the counter's id keeps the log valid once the counter moves on. */
  lemma AppendKeepsValid(log: seq<AttendanceRecord>, nextId: nat, r: AttendanceRecord)
    requires ValidLog(log, nextId) && r.id == nextId && ScannedRecord(r)
    ensures ValidLog(log + [r], nextId + 1)
  {
    assert (log + [r])[..|log|] == log;
  }

  class Store {
    var members: map<string, Member>
    var attendance: seq<AttendanceRecord>
    var nextId: nat

    /**
     * Registered barcodes, names and roles are non-empty, and the log is
     * one that scans can have written with this counter.
     */
    ghost predicate Valid()
      reads this
    {
      ValidMembers(members) && ValidLog(attendance, nextId)
    }

    /** A freshly created database: both tables empty. */
    constructor ()
      ensures Valid()
      ensures members == map[] && attendance == [] && nextId == 1
    {
      members := map[];
      attendance := [];
      nextId := 1;
    }

    /**
     * Register a member from the answers to the barcode, name and role
     * prompts. The first answer that is cancelled or empty aborts with no
     * write; a barcode already present is refused and nothing changes.
     * The barcode is stored as typed, without stripping.
     */
    method Register(barcode: Option<string>, name: Option<string>, role: Option<string>)
      returns (outcome: RegisterOutcome)
      requires Valid()
      modifies this
      ensures Valid()
      ensures !Given(barcode) ==> outcome == Cancelled(BarcodePrompt)
      ensures Given(barcode) && !Given(name) ==> outcome == Cancelled(NamePrompt)
      ensures Given(barcode) && Given(name) && !Given(role) ==> outcome == Cancelled(RolePrompt)
      ensures Given(barcode) && Given(name) && Given(role) ==>
        outcome == (if barcode.value in old(members) then DuplicateBarcode else Added)
      ensures outcome == Added ==> members == old(members)[barcode.value := Member(name.value, role.value)]
      ensures outcome != Added ==> members == old(members)
      ensures attendance == old(attendance) && nextId == old(nextId)
    {
      if !Given(barcode) {
        return Cancelled(BarcodePrompt);
      }
      if !Given(name) {
        return Cancelled(NamePrompt);
      }
      if !Given(role) {
        return Cancelled(RolePrompt);
      }
      if barcode.value in members {
        return DuplicateBarcode;
      }
      members := members[barcode.value := Member(name.value, role.value)];
      outcome := Added;
    }

    /**
     * Handle a submitted barcode entry at clock reading `now`. The entry is
     * stripped; an empty result is ignored. A registered barcode gets one new
     * record copying the member's current name and role; an unknown one
     * writes nothing.
     */
    method Scan(entry: string, now: Timestamp.DateTime) returns (outcome: ScanOutcome)
      requires Valid() && Timestamp.Valid(now)
      modifies this
      ensures Valid()
      ensures members == old(members)
      ensures Whitespace.Strip(entry) == [] ==> outcome == Ignored
      ensures Whitespace.Strip(entry) != [] && Whitespace.Strip(entry) !in members ==> outcome == UnknownBarcode
      ensures Whitespace.Strip(entry) in members ==>
        var m := members[Whitespace.Strip(entry)];
        && outcome == Marked(m.name, m.role, Timestamp.Format(now))
        && attendance == old(attendance)
           + [AttendanceRecord(old(nextId), Whitespace.Strip(entry), m.name, m.role, Timestamp.Format(now))]
        && nextId == old(nextId) + 1
      ensures !outcome.Marked? ==> attendance == old(attendance) && nextId == old(nextId)
    {
      var key := Whitespace.Strip(entry);
      if key == [] {
        return Ignored;
      }
      if key !in members {
        return UnknownBarcode;
      }
      var m := members[key];
      var stamp := Timestamp.Format(now);
      ScanWritesScannedRecord(entry, m, now, nextId);
      var record := AttendanceRecord(nextId, key, m.name, m.role, stamp);
      AppendKeepsValid(attendance, nextId, record);
      attendance := attendance + [record];
      nextId := nextId + 1;
      outcome := Marked(m.name, m.role, stamp);
    }

    /**
     * The attendance log: all records, newest first by `date_time`, which
     * for these well-formed texts is newest first in time.
     */
    method ListAttendance() returns (rows: seq<AttendanceRecord>)
      requires Valid()
      ensures multiset(rows) == multiset(attendance)
      ensures NewestFirst(rows)
      ensures NewestFirstInTime(rows)
    {
      rows := SortNewestFirst(attendance);
      SortIsNewestFirst(attendance);
      ValidLogFacts(attendance, nextId);
      forall i | 0 <= i < |rows|
        ensures Timestamp.WellFormed(rows[i].dateTime)
      {
        assert rows[i] in multiset(attendance);
      }
      NewestFirstIsChronological(rows);
    }

    /**
     * Remove the member whose barcode answers the prompt. A cancelled or
     * empty answer does nothing; an unknown barcode is a no-op. Attendance
     * records are never touched.
     */
    method Remove(barcode: Option<string>) returns (acted: bool)
      requires Valid()
      modifies this
      ensures Valid()
      ensures acted == Given(barcode)
      ensures members == if acted then old(members) - {barcode.value} else old(members)
      ensures attendance == old(attendance) && nextId == old(nextId)
    {
      acted := Given(barcode);
      if acted {
        members := members - {barcode.value};
      }
    }

    /**
     * Delete every attendance record, provided the operator typed the one
     * accepted user name and password and then confirmed. Members and the
     * id counter are untouched.
     */
    method Reset(username: Option<string>, password: Option<string>, confirmed: bool)
      returns (outcome: ResetOutcome)
      requires Valid()
      modifies this
      ensures Valid()
      ensures outcome == if !Authorised(username, password) then InvalidCredentials
                         else if !confirmed then Declined else Cleared
      ensures attendance == if outcome == Cleared then [] else old(attendance)
      ensures members == old(members) && nextId == old(nextId)
    {
      if !Authorised(username, password) {
        return InvalidCredentials;
      }
      if !confirmed {
        return Declined;
      }
      attendance := [];
      outcome := Cleared;
    }
  }
}
