/**
 * The `date_time` column: a wall-clock reading written with the pattern
 * "%Y-%m-%d %H:%M:%S", i.e. the fixed-width text "YYYY-MM-DD HH:MM:SS".
 * Because every field is zero-padded to a fixed width and the fields run
 * from most to least significant, ordering these texts as SQLite does
 * orders the readings chronologically.
 */
module Timestamp {
  import opened Wrappers
  import opened Collation

  /** A broken-down clock reading, second precision. */
  datatype DateTime = DateTime(year: int, month: int, day: int, hour: int, minute: int, second: int)

  predicate IsLeapYear(y: int)
  {
    y % 4 == 0 && (y % 100 != 0 || y % 400 == 0)
  }

  function DaysInMonth(y: int, m: int): int
    requires 1 <= m <= 12
  {
    if m == 2 then (if IsLeapYear(y) then 29 else 28)
    else if m == 4 || m == 6 || m == 9 || m == 11 then 30
    else 31
  }

  /** The readings a clock can return (years 1 to 9999, as the Python date type allows). */
  predicate Valid(t: DateTime)
  {
    && 1 <= t.year <= 9999
    && 1 <= t.month <= 12
    && 1 <= t.day <= DaysInMonth(t.year, t.month)
    && 0 <= t.hour < 24
    && 0 <= t.minute < 60
    && 0 <= t.second < 60
  }

  /** Strict chronological order: compare year, then month, day, hour, minute, second. */
  predicate ChronoLess(a: DateTime, b: DateTime)
  {
    || a.year < b.year
    || (a.year == b.year && a.month < b.month)
    || (a.year == b.year && a.month == b.month && a.day < b.day)
    || (a.year == b.year && a.month == b.month && a.day == b.day && a.hour < b.hour)
    || (a.year == b.year && a.month == b.month && a.day == b.day && a.hour == b.hour
        && a.minute < b.minute)
    || (a.year == b.year && a.month == b.month && a.day == b.day && a.hour == b.hour
        && a.minute == b.minute && a.second < b.second)
  }

  // ---------------------------------------------------------------- digits

  function Pow10(w: nat): (p: nat)
    ensures p >= 1
  {
    if w == 0 then 1 else 10 * Pow10(w - 1)
  }

  predicate IsDigit(c: char)
  {
    '0' <= c <= '9'
  }

  predicate AllDigits(s: string)
  {
    forall i :: 0 <= i < |s| ==> IsDigit(s[i])
  }

  function Digit(d: nat): (c: char)
    requires d < 10
    ensures IsDigit(c) && c as int - '0' as int == d
  {
    ('0' as int + d) as char
  }

  /** The lowest `w` decimal digits of `n`, zero-padded on the left. */
  function Pad(n: nat, w: nat): (s: string)
    ensures |s| == w
  {
    if w == 0 then [] else Pad(n / 10, w - 1) + [Digit(n % 10)]
  }

  lemma {:induction false} PadIsDigits(n: nat, w: nat)
    ensures AllDigits(Pad(n, w))
  {
    if w > 0 {
      PadIsDigits(n / 10, w - 1);
    }
  }

  /** The number a run of decimal digits denotes. */
  function Value(s: string): (v: nat)
    requires AllDigits(s)
    ensures v < Pow10(|s|)
  {
    if s == [] then 0
    else Value(s[..|s| - 1]) * 10 + (s[|s| - 1] as int - '0' as int)
  }

  lemma {:induction false} ValueOfPad(n: nat, w: nat)
    requires n < Pow10(w)
    ensures AllDigits(Pad(n, w)) && Value(Pad(n, w)) == n
  {
    PadIsDigits(n, w);
    if w > 0 {
      var s := Pad(n, w);
      assert s[..|s| - 1] == Pad(n / 10, w - 1);
      ValueOfPad(n / 10, w - 1);
    }
  }

  lemma {:induction false} PadOfValue(s: string)
    requires AllDigits(s)
    ensures Pad(Value(s), |s|) == s
  {
    if s != [] {
      var init := s[..|s| - 1];
      PadOfValue(init);
      var v := Value(s);
      assert v / 10 == Value(init) && v % 10 == s[|s| - 1] as int - '0' as int;
      assert s == init + [s[|s| - 1]];
    }
  }

  /** Fixed-width zero-padded numerals compare as text exactly as the numbers do. */
  lemma {:induction false} PadOrder(n: nat, m: nat, w: nat)
    requires n < Pow10(w) && m < Pow10(w)
    ensures TextLess(Pad(n, w), Pad(m, w)) <==> n < m
    ensures Pad(n, w) == Pad(m, w) <==> n == m
  {
    ValueOfPad(n, w);
    ValueOfPad(m, w);
    if w == 0 {
      Irreflexive([]);
    } else {
      var hn, hm := n / 10, m / 10;
      assert hn < Pow10(w - 1) && hm < Pow10(w - 1);
      PadOrder(hn, hm, w - 1);
      AppendSameLength(Pad(hn, w - 1), Pad(hm, w - 1), [Digit(n % 10)], [Digit(m % 10)]);
      assert TextLess([Digit(n % 10)], [Digit(m % 10)]) <==> n % 10 < m % 10;
      assert n < m <==> hn < hm || (hn == hm && n % 10 < m % 10);
    }
  }

  /** A padded field followed by the rest of the text: the field decides unless it ties. */
  lemma FieldThen(n: nat, m: nat, w: nat, x: string, y: string)
    requires n < Pow10(w) && m < Pow10(w)
    ensures TextLess(Pad(n, w) + x, Pad(m, w) + y) <==> n < m || (n == m && TextLess(x, y))
    ensures Pad(n, w) + x == Pad(m, w) + y <==> n == m && x == y
  {
    PadOrder(n, m, w);
    AppendSameLength(Pad(n, w), Pad(m, w), x, y);
  }

  /** A shared separator character does not affect the comparison. */
  lemma SeparatorThen(c: char, x: string, y: string)
    ensures TextLess([c] + x, [c] + y) <==> TextLess(x, y)
    ensures [c] + x == [c] + y <==> x == y
  {
    assert ([c] + x)[1..] == x && ([c] + y)[1..] == y;
  }

  // ---------------------------------------------------------------- format

  function FromMinute(t: DateTime): string
    requires Valid(t)
  {
    Pad(t.minute, 2) + ([':'] + Pad(t.second, 2))
  }

  function FromHour(t: DateTime): string
    requires Valid(t)
  {
    Pad(t.hour, 2) + ([':'] + FromMinute(t))
  }

  function FromDay(t: DateTime): string
    requires Valid(t)
  {
    Pad(t.day, 2) + ([' '] + FromHour(t))
  }

  function FromMonth(t: DateTime): string
    requires Valid(t)
  {
    Pad(t.month, 2) + (['-'] + FromDay(t))
  }

  /** The text "%Y-%m-%d %H:%M:%S" of a reading. */
  function Format(t: DateTime): (s: string)
    requires Valid(t)
    ensures |s| == 19
  {
    Pad(t.year, 4) + (['-'] + FromMonth(t))
  }

  /** Splitting `p + ([c] + rest)` at the end of `p`. */
  lemma Split(p: string, c: char, rest: string)
    ensures var x := p + ([c] + rest);
      x[..|p|] == p && x[|p|] == c && x[|p| + 1..] == rest
  {
  }

  /** Where each field of a formatted reading sits. */
  lemma FormatFields(t: DateTime)
    requires Valid(t)
    ensures var s := Format(t);
      && s[0..4] == Pad(t.year, 4) && s[4] == '-'
      && s[5..7] == Pad(t.month, 2) && s[7] == '-'
      && s[8..10] == Pad(t.day, 2) && s[10] == ' '
      && s[11..13] == Pad(t.hour, 2) && s[13] == ':'
      && s[14..16] == Pad(t.minute, 2) && s[16] == ':'
      && s[17..19] == Pad(t.second, 2)
  {
    var s := Format(t);
    var mo, d, h, mi := FromMonth(t), FromDay(t), FromHour(t), FromMinute(t);
    Split(Pad(t.year, 4), '-', mo);
    Split(Pad(t.month, 2), '-', d);
    Split(Pad(t.day, 2), ' ', h);
    Split(Pad(t.hour, 2), ':', mi);
    Split(Pad(t.minute, 2), ':', Pad(t.second, 2));
    assert s[5..] == mo;
    assert s[5..7] == mo[..2] && s[7] == mo[2] && s[8..] == mo[3..];
    assert s[8..10] == d[..2] && s[10] == d[2] && s[11..] == d[3..];
    assert s[11..13] == h[..2] && s[13] == h[2] && s[14..] == h[3..];
    assert s[14..16] == mi[..2] && s[16] == mi[2] && s[17..] == mi[3..];
  }

  // ---------------------------------------------------------------- parse

  /** Reads a "YYYY-MM-DD HH:MM:SS" text back; `None` unless it is exactly that shape and a real reading. */
  function Parse(s: string): (r: Option<DateTime>)
    ensures r.Some? ==> Valid(r.value)
  {
    if |s| == 19 && s[4] == '-' && s[7] == '-' && s[10] == ' ' && s[13] == ':' && s[16] == ':'
       && AllDigits(s[0..4]) && AllDigits(s[5..7]) && AllDigits(s[8..10])
       && AllDigits(s[11..13]) && AllDigits(s[14..16]) && AllDigits(s[17..19])
    then
      var t := DateTime(Value(s[0..4]), Value(s[5..7]), Value(s[8..10]),
                        Value(s[11..13]), Value(s[14..16]), Value(s[17..19]));
      if Valid(t) then Some(t) else None
    else None
  }

  /** A text the scan handler can write: the formatting of some reading. */
  ghost predicate WellFormed(s: string)
  {
    exists t :: Valid(t) && Format(t) == s
  }

  /** Formatting a reading and reading it back gives the same reading. */
  lemma ParseFormat(t: DateTime)
    requires Valid(t)
    ensures Parse(Format(t)) == Some(t)
  {
    FormatFields(t);
    ValueOfPad(t.year, 4);
    ValueOfPad(t.month, 2);
    ValueOfPad(t.day, 2);
    ValueOfPad(t.hour, 2);
    ValueOfPad(t.minute, 2);
    ValueOfPad(t.second, 2);
  }

  /** Every text that parses is the formatting of the reading it denotes. */
  lemma FormatParse(s: string)
    requires Parse(s).Some?
    ensures Format(Parse(s).value) == s
  {
    var t := Parse(s).value;
    PadOfValue(s[0..4]);
    PadOfValue(s[5..7]);
    PadOfValue(s[8..10]);
    PadOfValue(s[11..13]);
    PadOfValue(s[14..16]);
    PadOfValue(s[17..19]);
    FormatFields(t);
    var f := Format(t);
    assert forall i :: 0 <= i < 19 ==> f[i] == s[i] by {
      forall i | 0 <= i < 19
        ensures f[i] == s[i]
      {
        if i < 4 { assert f[i] == f[0..4][i]; }
        else if 4 < i < 7 { assert f[i] == f[5..7][i - 5]; }
        else if 7 < i < 10 { assert f[i] == f[8..10][i - 8]; }
        else if 10 < i < 13 { assert f[i] == f[11..13][i - 11]; }
        else if 13 < i < 16 { assert f[i] == f[14..16][i - 14]; }
        else if 16 < i { assert f[i] == f[17..19][i - 17]; }
      }
    }
  }

  /** The well-formed texts are exactly those that parse. */
  lemma WellFormedIffParses(s: string)
    ensures WellFormed(s) <==> Parse(s).Some?
  {
    if WellFormed(s) {
      var t :| Valid(t) && Format(t) == s;
      ParseFormat(t);
    }
    if Parse(s).Some? {
      FormatParse(s);
    }
  }

  lemma FromMinuteOrder(a: DateTime, b: DateTime)
    requires Valid(a) && Valid(b)
    ensures TextLess(FromMinute(a), FromMinute(b)) <==>
      a.minute < b.minute || (a.minute == b.minute && a.second < b.second)
    ensures FromMinute(a) == FromMinute(b) <==> a.minute == b.minute && a.second == b.second
  {
    PadOrder(a.second, b.second, 2);
    SeparatorThen(':', Pad(a.second, 2), Pad(b.second, 2));
    FieldThen(a.minute, b.minute, 2, [':'] + Pad(a.second, 2), [':'] + Pad(b.second, 2));
  }

  lemma FromHourOrder(a: DateTime, b: DateTime)
    requires Valid(a) && Valid(b)
    ensures TextLess(FromHour(a), FromHour(b)) <==>
      a.hour < b.hour || (a.hour == b.hour && TextLess(FromMinute(a), FromMinute(b)))
    ensures FromHour(a) == FromHour(b) <==> a.hour == b.hour && FromMinute(a) == FromMinute(b)
  {
    SeparatorThen(':', FromMinute(a), FromMinute(b));
    FieldThen(a.hour, b.hour, 2, [':'] + FromMinute(a), [':'] + FromMinute(b));
  }

  lemma FromDayOrder(a: DateTime, b: DateTime)
    requires Valid(a) && Valid(b)
    ensures TextLess(FromDay(a), FromDay(b)) <==>
      a.day < b.day || (a.day == b.day && TextLess(FromHour(a), FromHour(b)))
    ensures FromDay(a) == FromDay(b) <==> a.day == b.day && FromHour(a) == FromHour(b)
  {
    SeparatorThen(' ', FromHour(a), FromHour(b));
    FieldThen(a.day, b.day, 2, [' '] + FromHour(a), [' '] + FromHour(b));
  }

  lemma FromMonthOrder(a: DateTime, b: DateTime)
    requires Valid(a) && Valid(b)
    ensures TextLess(FromMonth(a), FromMonth(b)) <==>
      a.month < b.month || (a.month == b.month && TextLess(FromDay(a), FromDay(b)))
    ensures FromMonth(a) == FromMonth(b) <==> a.month == b.month && FromDay(a) == FromDay(b)
  {
    SeparatorThen('-', FromDay(a), FromDay(b));
    FieldThen(a.month, b.month, 2, ['-'] + FromDay(a), ['-'] + FromDay(b));
  }

  /** The order of formatted readings as text is their chronological order. */
  lemma FormatOrder(a: DateTime, b: DateTime)
    requires Valid(a) && Valid(b)
    ensures TextLess(Format(a), Format(b)) <==> ChronoLess(a, b)
    ensures Format(a) == Format(b) <==> a == b
  {
    FromMinuteOrder(a, b);
    FromHourOrder(a, b);
    FromDayOrder(a, b);
    FromMonthOrder(a, b);
    SeparatorThen('-', FromMonth(a), FromMonth(b));
    FieldThen(a.year, b.year, 4, ['-'] + FromMonth(a), ['-'] + FromMonth(b));
  }

  /**
   * For two well-formed "YYYY-MM-DD HH:MM:SS" texts, text order and
   * chronological order of the readings they denote coincide.
   */
  lemma WellFormedOrder(s1: string, s2: string)
    requires WellFormed(s1) && WellFormed(s2)
    ensures Parse(s1).Some? && Parse(s2).Some?
    ensures TextLess(s1, s2) <==> ChronoLess(Parse(s1).value, Parse(s2).value)
    ensures s1 == s2 <==> Parse(s1).value == Parse(s2).value
  {
    WellFormedIffParses(s1);
    WellFormedIffParses(s2);
    FormatParse(s1);
    FormatParse(s2);
    FormatOrder(Parse(s1).value, Parse(s2).value);
  }

  /** Both texts parse, and the reading `s1` denotes is not earlier than the one `s2` denotes. */
  predicate NoEarlier(s1: string, s2: string)
  {
    Parse(s1).Some? && Parse(s2).Some? && !ChronoLess(Parse(s1).value, Parse(s2).value)
  }

  /** A well-formed text that sorts at or after another denotes a reading no earlier than the other's. */
  lemma SortsAfterIsNoEarlier(later: string, earlier: string)
    requires WellFormed(later) && WellFormed(earlier) && TextLessEq(earlier, later)
    ensures NoEarlier(later, earlier)
  {
    WellFormedOrder(later, earlier);
    if TextLess(earlier, later) {
      Asymmetric(earlier, later);
    } else {
      Irreflexive(later);
    }
  }
}
