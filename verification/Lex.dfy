/** Lexicographic order on sequences of numbers: byte strings and code-unit strings. */
module Lex {

  predicate Less(a: seq<nat>, b: seq<nat>) {
    b != [] && (a == [] || a[0] < b[0] || (a[0] == b[0] && Less(a[1..], b[1..])))
  }

  lemma {:induction false} LessIrreflexive(a: seq<nat>)
    ensures !Less(a, a)
  {
    if a != [] { LessIrreflexive(a[1..]); }
  }

  lemma {:induction false} LessTransitive(a: seq<nat>, b: seq<nat>, c: seq<nat>)
    requires Less(a, b) && Less(b, c)
    ensures Less(a, c)
  {
    if a != [] && a[0] == b[0] == c[0] {
      LessTransitive(a[1..], b[1..], c[1..]);
    }
  }

  lemma {:induction false} LessTotal(a: seq<nat>, b: seq<nat>)
    ensures a == b || Less(a, b) || Less(b, a)
  {
    if a != [] && b != [] && a[0] == b[0] {
      LessTotal(a[1..], b[1..]);
      assert a == [a[0]] + a[1..] && b == [b[0]] + b[1..];
    }
  }

  lemma LessAsymmetric(a: seq<nat>, b: seq<nat>)
    requires Less(a, b)
    ensures !Less(b, a) && a != b
  {
    LessIrreflexive(a);
    if Less(b, a) { LessTransitive(a, b, a); }
  }

  /** A proper prefix comes first. */
  lemma {:induction false} PrefixIsLess(a: seq<nat>, b: seq<nat>)
    requires a < b
    ensures Less(a, b)
  {
    if a != [] { PrefixIsLess(a[1..], b[1..]); }
  }

  /** Whatever lies between a prefix and a string that has it, has it too. */
  lemma {:induction false} BetweenSharesPrefix(p: seq<nat>, x: seq<nat>, y: seq<nat>)
    requires p <= y && !Less(x, p) && !Less(y, x)
    ensures p <= x
  {
    if p != [] {
      assert x != [] && x[0] == p[0];
      BetweenSharesPrefix(p[1..], x[1..], y[1..]);
      assert x == [x[0]] + x[1..] && p == [p[0]] + p[1..];
    }
  }

  /** The order is decided by the first difference. */
  lemma {:induction false} LessAtDifference(a: seq<nat>, b: seq<nat>, k: nat)
    requires k < |a| && k < |b| && a[..k] == b[..k] && a[k] != b[k]
    ensures Less(a, b) <==> a[k] < b[k]
  {
    if k > 0 {
      assert a[0] == a[..k][0] == b[..k][0] == b[0];
      assert a[1..][..k - 1] == a[..k][1..] && b[1..][..k - 1] == b[..k][1..];
      LessAtDifference(a[1..], b[1..], k - 1);
    }
  }
}
