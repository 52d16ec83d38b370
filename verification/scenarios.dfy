/**
 * Client code driving the store the way the window's buttons and the
 * barcode entry do; each assertion follows from the handlers' contracts
 * alone.
 */
module Scenarios {
  import opened Wrappers
  import opened AttendanceStore
  import Timestamp
  import Whitespace

  /** "A1" has no whitespace around it, so a scan of "A1" looks up "A1". */
  lemma PlainKey()
    ensures Whitespace.Strip("A1") == "A1"
  {
    assert !Whitespace.IsSpace('A') && !Whitespace.IsSpace('1');
    Whitespace.StrippedIsFixed("A1");
  }

  /** Register A1, scan it twice: two records, both Alice the Delegate, the later scan listed first. */
  method RegisterThenScanTwice(first: Timestamp.DateTime, second: Timestamp.DateTime)
    requires Timestamp.Valid(first) && Timestamp.Valid(second) && Timestamp.ChronoLess(first, second)
  {
    var store := new Store();
    var added := store.Register(Some("A1"), Some("Alice"), Some("Delegate"));
    assert added == Added;

    PlainKey();
    var r1 := AttendanceRecord(1, "A1", "Alice", "Delegate", Timestamp.Format(first));
    var r2 := AttendanceRecord(2, "A1", "Alice", "Delegate", Timestamp.Format(second));

    var o1 := store.Scan("A1", first);
    assert store.attendance == [r1] && store.nextId == 2;
    var o2 := store.Scan("A1", second);
    assert store.attendance == [r1, r2];
    assert o1.name == o2.name == "Alice" && o1.role == o2.role == "Delegate";

    var rows := store.ListAttendance();
    ListingOfTwo(rows, r1, r2, first, second);
    assert rows == [r2, r1];
  }

  /** Listing a log of two scans, the later one comes first. */
  lemma ListingOfTwo(rows: seq<AttendanceRecord>, r1: AttendanceRecord, r2: AttendanceRecord,
                     first: Timestamp.DateTime, second: Timestamp.DateTime)
    requires Timestamp.Valid(first) && Timestamp.Valid(second) && Timestamp.ChronoLess(first, second)
    requires r1.dateTime == Timestamp.Format(first) && r2.dateTime == Timestamp.Format(second)
    requires multiset(rows) == multiset([r1, r2]) && NewestFirstInTime(rows)
    ensures rows == [r2, r1]
  {
    assert |rows| == 2 by {
      assert |multiset(rows)| == |multiset([r1, r2])|;
    }
    assert rows == [rows[0], rows[1]];
    assert rows[0] in multiset(rows) && rows[1] in multiset(rows);
    Timestamp.ParseFormat(first);
    Timestamp.ParseFormat(second);
    assert Timestamp.NoEarlier(rows[0].dateTime, rows[1].dateTime);
    assert rows[1] in multiset{r1, r2} - multiset{rows[0]};
    assert rows[0] == r1 || rows[0] == r2;
    assert !Timestamp.NoEarlier(r1.dateTime, r2.dateTime);
    assert rows[0] == r2;
    assert rows[1] in multiset{r1, r2} - multiset{r2};
  }

  /** Registering a taken barcode again fails and keeps the first member's name and role. */
  method DuplicateKeepsOriginal()
  {
    var store := new Store();
    var a := store.Register(Some("A1"), Some("Alice"), Some("Delegate"));
    var b := store.Register(Some("A1"), Some("Bob"), Some("Chair"));
    assert a == Added && b == DuplicateBarcode;
    assert store.members["A1"] == Member("Alice", "Delegate");
  }

  /** An empty or cancelled answer stops registration at that prompt. */
  method CancelledRegistration()
  {
    var store := new Store();
    var a := store.Register(None, Some("Alice"), Some("Delegate"));
    var b := store.Register(Some("A1"), Some(""), Some("Delegate"));
    var c := store.Register(Some("A1"), Some("Alice"), None);
    assert a == Cancelled(BarcodePrompt) && b == Cancelled(NamePrompt) && c == Cancelled(RolePrompt);
    assert store.members == map[];
  }

  /** After removal the barcode is unknown, and the earlier record stays in the log. */
  method RemoveThenScan(now: Timestamp.DateTime)
    requires Timestamp.Valid(now)
  {
    var store := new Store();
    var added := store.Register(Some("A1"), Some("Alice"), Some("Delegate"));
    PlainKey();
    var o1 := store.Scan("A1", now);
    var log := store.attendance;
    assert |log| == 1;
    var acted := store.Remove(Some("A1"));
    var o2 := store.Scan("A1", now);
    assert o2 == UnknownBarcode;
    assert store.attendance == log;

    var again := store.Remove(Some("A1"));
    assert again && store.members == map[] && store.attendance == log;
  }

  /** A barcode registered with surrounding spaces can never be scanned: the entry is stripped. */
  method PaddedBarcodeIsUnscannable(entry: string, now: Timestamp.DateTime)
    requires Timestamp.Valid(now)
  {
    var store := new Store();
    var added := store.Register(Some(" A1 "), Some("Alice"), Some("Delegate"));
    assert added == Added && store.members.Keys == {" A1 "};
    assert !Whitespace.IsStripped(" A1 ");
    Whitespace.StrippedIsFixed(" A1 ");
    Whitespace.StripNeverYields(" A1 ", entry);
    var o := store.Scan(entry, now);
    assert o != Marked("Alice", "Delegate", Timestamp.Format(now));
    assert store.attendance == [];
  }

  /** A confirmed, authorised reset empties the log and keeps the members; otherwise nothing changes. */
  method ResetKeepsMembers(now: Timestamp.DateTime)
    requires Timestamp.Valid(now)
  {
    var store := new Store();
    var added := store.Register(Some("A1"), Some("Alice"), Some("Delegate"));
    PlainKey();
    var o := store.Scan("A1", now);
    var members := store.members;

    var refused := store.Reset(Some("ashik"), Some("3488"), true);
    assert refused == InvalidCredentials && |store.attendance| == 1;
    var declined := store.Reset(Some("ashik"), Some("3487"), false);
    assert declined == Declined && |store.attendance| == 1;
    var cleared := store.Reset(Some("ashik"), Some("3487"), true);
    assert cleared == Cleared;

    var rows := store.ListAttendance();
    assert rows == [] by {
      assert |multiset(rows)| == 0;
    }
    assert store.members == members;
  }
}
