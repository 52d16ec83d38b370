/**
 * Python's `str.strip()` with no argument: removes leading and trailing
 * characters that Python classes as whitespace.
 */
module Whitespace {

  /** The characters `str.isspace` accepts (bidirectional class WS, B or S, or category Zs). */
  predicate IsSpace(c: char)
  {
    var k := c as int;
    || 0x09 <= k <= 0x0D
    || 0x1C <= k <= 0x20
    || k == 0x85 || k == 0xA0 || k == 0x1680
    || 0x2000 <= k <= 0x200A
    || k == 0x2028 || k == 0x2029 || k == 0x202F || k == 0x205F || k == 0x3000
  }

  /** Neither end of `s` is whitespace. */
  predicate IsStripped(s: string)
  {
    s != [] ==> !IsSpace(s[0]) && !IsSpace(s[|s| - 1])
  }

  /** `s` without its leading whitespace: a suffix of `s` that does not start with whitespace. */
  function TrimStart(s: string): (r: string)
    ensures |r| <= |s| && r == s[|s| - |r|..]
    ensures r != [] ==> !IsSpace(r[0])
  {
    if s != [] && IsSpace(s[0]) then TrimStart(s[1..]) else s
  }

  /** `s` without its trailing whitespace: a prefix of `s` that does not end with whitespace. */
  function TrimEnd(s: string): (r: string)
    ensures |r| <= |s| && r == s[..|r|]
    ensures r != [] ==> !IsSpace(r[|r| - 1])
  {
    if s != [] && IsSpace(s[|s| - 1]) then TrimEnd(s[..|s| - 1]) else s
  }

  /** What `TrimStart` drops is whitespace. */
  lemma {:induction false} TrimStartDropsSpace(s: string)
    ensures forall i :: 0 <= i < |s| - |TrimStart(s)| ==> IsSpace(s[i])
  {
    if s != [] && IsSpace(s[0]) {
      TrimStartDropsSpace(s[1..]);
      assert forall i :: 1 <= i < |s| ==> s[i] == s[1..][i - 1];
    }
  }

  /** What `TrimEnd` drops is whitespace. */
  lemma {:induction false} TrimEndDropsSpace(s: string)
    ensures forall i :: |TrimEnd(s)| <= i < |s| ==> IsSpace(s[i])
  {
    if s != [] && IsSpace(s[|s| - 1]) {
      TrimEndDropsSpace(s[..|s| - 1]);
    }
  }

  /** `s` is `r` with only whitespace before it (the first `k` characters) and after it. */
  predicate Surrounds(s: string, k: int, r: string)
  {
    && 0 <= k <= |s| - |r|
    && s[k..k + |r|] == r
    && (forall i :: 0 <= i < k ==> IsSpace(s[i]))
    && (forall i :: k + |r| <= i < |s| ==> IsSpace(s[i]))
  }

  /** `s.strip()`: `s` without the whitespace at either end. */
  function Strip(s: string): (r: string)
    ensures |r| <= |s| && IsStripped(r)
  {
    TrimEnd(TrimStart(s))
  }

  /**
   * `Strip(s)` is a stretch of `s` with nothing but whitespace around it:
   * exactly the characters stripping removes are the leading and trailing
   * whitespace.
   */
  lemma StripSurrounds(s: string)
    ensures exists k :: Surrounds(s, k, Strip(s))
  {
    var t := TrimStart(s);
    var r := Strip(s);
    var k := |s| - |t|;
    TrimStartDropsSpace(s);
    TrimEndDropsSpace(t);
    assert t == s[k..];
    assert r == t[..|r|];
    assert s[k..k + |r|] == r;
    assert forall i :: k + |r| <= i < |s| ==> s[i] == t[i - k];
    assert Surrounds(s, k, r);
  }

  /** An input strips to nothing exactly when it is all whitespace. */
  lemma StripEmpty(s: string)
    ensures Strip(s) == [] <==> forall i :: 0 <= i < |s| ==> IsSpace(s[i])
  {
    StripSurrounds(s);
    var k :| Surrounds(s, k, Strip(s));
    if Strip(s) != [] {
      assert !IsSpace(s[k]) by {
        assert s[k] == Strip(s)[0];
      }
    }
  }

  /** Exactly the texts with no whitespace at either end are left alone by stripping. */
  lemma StrippedIsFixed(s: string)
    ensures IsStripped(s) <==> Strip(s) == s
  {
    if IsStripped(s) {
      assert TrimStart(s) == s;
      assert TrimEnd(s) == s;
    }
  }

  /** Stripping twice is stripping once. */
  lemma StripIdempotent(s: string)
    ensures Strip(Strip(s)) == Strip(s)
  {
    StrippedIsFixed(Strip(s));
  }

  /**
   * A key that carries whitespace at either end is never what a stripped
   * input turns into: whatever was typed, `Strip(input) != key`.
   */
  lemma StripNeverYields(key: string, input: string)
    requires Strip(key) != key
    ensures Strip(input) != key
  {
    StripIdempotent(input);
  }
}
