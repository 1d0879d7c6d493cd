/** The order of object keys: Unicode strings compared by their UTF-16 code units. */
module Utf16 {
  import opened Prelude
  import opened Utf8
  import opened Lex

  type Text = seq<Scalar>

  predicate IsSupplementary(c: Scalar) {
    c >= 0x1_0000
  }

  /** The code units of one character: itself, or a surrogate pair. */
  function Units(c: Scalar): (u: seq<nat>)
    ensures u != []
  {
    if IsSupplementary(c) then [0xD800 + (c - 0x1_0000) / 0x400, 0xDC00 + (c - 0x1_0000) % 0x400] else [c]
  }

  /** `encode_utf16`. */
  function CodeUnits(text: Text): seq<nat> {
    if text == [] then [] else Units(text[0]) + CodeUnits(text[1..])
  }

  /** The comparison of `sort_by`: code units, left to right. */
  predicate KeyLess(a: Text, b: Text) {
    Less(CodeUnits(a), CodeUnits(b))
  }

  /** Common leading units decide nothing. */
  lemma {:induction false} LessAfterPrefix(p: seq<nat>, x: seq<nat>, y: seq<nat>)
    ensures Less(p + x, p + y) <==> Less(x, y)
  {
    if p == [] {
      assert p + x == x && p + y == y;
    } else {
      assert (p + x)[1..] == p[1..] + x && (p + y)[1..] == p[1..] + y;
      LessAfterPrefix(p[1..], x, y);
    }
  }

  /** Whether the units of `c` come before those of `d`: supplementary characters use units from 0xD800 to 0xDBFF. */
  predicate UnitsBefore(c: Scalar, d: Scalar) {
    if IsSupplementary(c) == IsSupplementary(d) then c < d
    else if IsSupplementary(c) then d >= 0xE000
    else c < 0xD800
  }

  /** Different characters already differ in their units, whatever follows. */
  lemma UnitsDecide(c: Scalar, d: Scalar, x: seq<nat>, y: seq<nat>)
    requires c != d
    ensures Less(Units(c) + x, Units(d) + y) <==> UnitsBefore(c, d)
  {
    var u, v := Units(c) + x, Units(d) + y;
    if IsSupplementary(c) && IsSupplementary(d) && u[0] == v[0] {
      assert u[..1] == v[..1];
      LessAtDifference(u, v, 1);
    } else {
      LessAtDifference(u, v, 0);
    }
  }

  /** Code-point order, which is also the byte order of UTF-8. */
  predicate CodePointLess(a: Text, b: Text) {
    Less(a, b)
  }

  /** `a` and `b` first differ at `k`. */
  predicate FirstDifference(a: Text, b: Text, k: int) {
    0 <= k < |a| && k < |b| && a[..k] == b[..k] && a[k] != b[k]
  }

  lemma {:induction false} CodeUnitsAppend(a: Text, b: Text)
    ensures CodeUnits(a + b) == CodeUnits(a) + CodeUnits(b)
  {
    if a == [] {
      assert a + b == b;
    } else {
      assert (a + b)[1..] == a[1..] + b;
      CodeUnitsAppend(a[1..], b);
    }
  }

  lemma DifferenceDecides(a: Text, b: Text, k: int)
    requires FirstDifference(a, b, k)
    ensures KeyLess(a, b) <==> UnitsBefore(a[k], b[k])
    ensures CodePointLess(a, b) <==> a[k] < b[k]
  {
    var p, x, y := CodeUnits(a[..k]), CodeUnits(a[k + 1..]), CodeUnits(b[k + 1..]);
    assert a == a[..k] + a[k..] && b == b[..k] + b[k..];
    CodeUnitsAppend(a[..k], a[k..]);
    CodeUnitsAppend(b[..k], b[k..]);
    assert a[k..][1..] == a[k + 1..] && b[k..][1..] == b[k + 1..];
    LessAfterPrefix(p, Units(a[k]) + x, Units(b[k]) + y);
    UnitsDecide(a[k], b[k], x, y);
    LessAtDifference(a, b, k);
  }

  /** Two strings are equal, or one is a proper prefix of the other, or they have a first difference. */
  lemma {:induction false} Compare(a: Text, b: Text)
    ensures a <= b || b <= a || exists k :: FirstDifference(a, b, k)
  {
    if a != [] && b != [] {
      if a[0] != b[0] {
        assert FirstDifference(a, b, 0);
      } else {
        Compare(a[1..], b[1..]);
        assert a == [a[0]] + a[1..] && b == [b[0]] + b[1..];
        if k :| FirstDifference(a[1..], b[1..], k) {
          assert a[..k + 1] == [a[0]] + a[1..][..k] && b[..k + 1] == [b[0]] + b[1..][..k];
          assert FirstDifference(a, b, k + 1);
        }
      }
    }
  }

  lemma {:induction false} LongerHasMoreUnits(a: Text, b: Text)
    requires a < b
    ensures CodeUnits(a) < CodeUnits(b)
  {
    assert b == a + b[|a|..];
    CodeUnitsAppend(a, b[|a|..]);
  }

  /** A prefix is less in both orders. */
  lemma PrefixDecides(a: Text, b: Text)
    requires a < b
    ensures KeyLess(a, b) && !KeyLess(b, a) && CodePointLess(a, b) && !CodePointLess(b, a)
  {
    LongerHasMoreUnits(a, b);
    PrefixIsLess(CodeUnits(a), CodeUnits(b));
    LessAsymmetric(CodeUnits(a), CodeUnits(b));
    PrefixIsLess(a, b);
    LessAsymmetric(a, b);
  }

  /** Distinct strings are comparable, one way only: the code units determine the string. */
  lemma KeyOrderIsTotal(a: Text, b: Text)
    requires a != b
    ensures KeyLess(a, b) <==> !KeyLess(b, a)
  {
    Compare(a, b);
    if a <= b {
      PrefixDecides(a, b);
    } else if b <= a {
      PrefixDecides(b, a);
    } else {
      var k :| FirstDifference(a, b, k);
      DifferenceDecides(a, b, k);
      DifferenceDecides(b, a, k);
    }
  }

  /** The key order is a strict total order on strings. */
  lemma KeyOrderIsStrict(a: Text, b: Text, c: Text)
    ensures !KeyLess(a, a)
    ensures KeyLess(a, b) && KeyLess(b, c) ==> KeyLess(a, c)
    ensures a == b || KeyLess(a, b) || KeyLess(b, a)
  {
    LessIrreflexive(CodeUnits(a));
    if KeyLess(a, b) && KeyLess(b, c) { LessTransitive(CodeUnits(a), CodeUnits(b), CodeUnits(c)); }
    if a != b { KeyOrderIsTotal(a, b); }
  }

  /** One supplementary character, the other from U+E000 to U+FFFF. */
  predicate Inverted(c: Scalar, d: Scalar) {
    (IsSupplementary(c) && 0xE000 <= d <= 0xFFFF) || (IsSupplementary(d) && 0xE000 <= c <= 0xFFFF)
  }

  /** Key order and code-point order disagree exactly when the first difference pits such a pair. */
  lemma OrdersDisagree(a: Text, b: Text)
    ensures KeyLess(a, b) != CodePointLess(a, b) <==> exists k :: FirstDifference(a, b, k) && Inverted(a[k], b[k])
  {
    Compare(a, b);
    if a == b {
      LessIrreflexive(CodeUnits(a));
      LessIrreflexive(a);
    } else if a <= b {
      PrefixDecides(a, b);
    } else if b <= a {
      PrefixDecides(b, a);
      assert forall k :: 0 <= k < |b| ==> a[k] == b[k];
    } else {
      var k :| FirstDifference(a, b, k);
      DifferenceDecides(a, b, k);
      assert forall i :: 0 <= i < k ==> a[..k][i] == a[i] && b[..k][i] == b[i];
      assert forall j :: FirstDifference(a, b, j) && k < j ==> a[..j][k] == a[k] && b[..j][k] == b[k];
    }
  }
}
