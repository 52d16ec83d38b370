/**
 * The order SQLite's BINARY collation puts TEXT values in: code points are
 * compared from the left, and a proper prefix sorts before the longer text.
 * (UTF-8 byte order and code point order agree, so comparing characters is
 * the same as comparing the stored bytes.)
 */
module Collation {

  /** `a` sorts strictly before `b`. */
  predicate TextLess(a: string, b: string)
  {
    if a == [] then b != []
    else if b == [] then false
    else if a[0] != b[0] then a[0] < b[0]
    else TextLess(a[1..], b[1..])
  }

  predicate TextLessEq(a: string, b: string)
  {
    a == b || TextLess(a, b)
  }

  lemma {:induction false} Irreflexive(a: string)
    ensures !TextLess(a, a)
  {
    if a != [] {
      Irreflexive(a[1..]);
    }
  }

  lemma {:induction false} Asymmetric(a: string, b: string)
    requires TextLess(a, b)
    ensures !TextLess(b, a) && a != b
  {
    if a != [] && a[0] == b[0] {
      Asymmetric(a[1..], b[1..]);
    }
  }

  lemma {:induction false} Transitive(a: string, b: string, c: string)
    requires TextLess(a, b) && TextLess(b, c)
    ensures TextLess(a, c)
  {
    if a != [] && a[0] == b[0] && b[0] == c[0] {
      Transitive(a[1..], b[1..], c[1..]);
    }
  }

  lemma {:induction false} Total(a: string, b: string)
    ensures TextLess(a, b) || a == b || TextLess(b, a)
  {
    if a != [] && b != [] && a[0] == b[0] {
      Total(a[1..], b[1..]);
      if a[1..] == b[1..] {
        assert a == [a[0]] + a[1..] && b == [b[0]] + b[1..];
      }
    }
  }

  lemma TransitiveEq(a: string, b: string, c: string)
    requires TextLessEq(a, b) && TextLessEq(b, c)
    ensures TextLessEq(a, c)
  {
    if TextLess(a, b) && TextLess(b, c) {
      Transitive(a, b, c);
    }
  }

  /**
   * Comparing two texts whose first parts have the same length compares
   * the first parts, and only when those are equal the rest.
   */
  lemma {:induction false} AppendSameLength(a1: string, a2: string, b1: string, b2: string)
    requires |a1| == |a2|
    ensures TextLess(a1 + b1, a2 + b2) <==> TextLess(a1, a2) || (a1 == a2 && TextLess(b1, b2))
    ensures a1 + b1 == a2 + b2 <==> a1 == a2 && b1 == b2
  {
    if a1 == [] {
      assert a1 + b1 == b1 && a2 + b2 == b2;
    } else {
      assert (a1 + b1)[0] == a1[0] && (a1 + b1)[1..] == a1[1..] + b1;
      assert (a2 + b2)[0] == a2[0] && (a2 + b2)[1..] == a2[1..] + b2;
      AppendSameLength(a1[1..], a2[1..], b1, b2);
      if a1[0] == a2[0] && a1[1..] == a2[1..] {
        assert a1 == [a1[0]] + a1[1..] && a2 == [a2[0]] + a2[1..];
      }
      if a1 + b1 == a2 + b2 {
        assert a1 == (a1 + b1)[..|a1|] && a2 == (a2 + b2)[..|a2|];
        assert b1 == (a1 + b1)[|a1|..] && b2 == (a2 + b2)[|a2|..];
      }
    }
  }
}
