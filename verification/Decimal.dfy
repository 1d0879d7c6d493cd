/** Canonical decimal numerals and their checked u64 reading. */
module Decimal {
  import opened Prelude

  predicate IsDigit(b: byte) {
    0x30 <= b <= 0x39
  }

  predicate AllDigits(s: seq<byte>) {
    forall i :: 0 <= i < |s| ==> IsDigit(s[i])
  }

  /** No leading zero, except for zero itself. */
  predicate Canonical(s: seq<byte>) {
    AllDigits(s) && s != [] && (|s| > 1 ==> s[0] != 0x30)
  }

  /** `to_string` of an unsigned number. */
  function Numeral(n: nat): (s: seq<byte>)
    ensures Canonical(s) && (n > 0 ==> s[0] != 0x30)
  {
    if n < 10 then [0x30 + n] else Numeral(n / 10) + [0x30 + n % 10]
  }

  function Value(s: seq<byte>): nat
    requires AllDigits(s)
  {
    if s == [] then 0 else 10 * Value(s[..|s| - 1]) + (s[|s| - 1] as nat - 0x30)
  }

  /** `parse_pax_decimal`: a fold that stops at the first u64 overflow. */
  function ParseU64(s: seq<byte>): Option<u64>
    requires AllDigits(s)
  {
    if s == [] then Some(0)
    else
      var front := ParseU64(s[..|s| - 1]);
      if front.None? then None
      else
        var next: nat := 10 * (front.value as nat) + (s[|s| - 1] as nat - 0x30);
        if next <= U64_MAX then Some(next) else None
  }

  lemma {:induction false} ParseIsValue(s: seq<byte>)
    requires AllDigits(s)
    ensures ParseU64(s) == if Value(s) <= U64_MAX then Some(Value(s)) else None
  {
    if s != [] {
      ParseIsValue(s[..|s| - 1]);
    }
  }

  lemma {:induction false} ValueOfNumeral(n: nat)
    ensures Value(Numeral(n)) == n
  {
    if n >= 10 {
      ValueOfNumeral(n / 10);
      var s := Numeral(n);
      assert s[..|s| - 1] == Numeral(n / 10);
    } else {
      assert Numeral(n)[..0] == [];
    }
  }

  lemma {:induction false} ValuePositive(s: seq<byte>)
    requires AllDigits(s) && s != [] && s[0] != 0x30
    ensures Value(s) > 0
  {
    if |s| > 1 {
      ValuePositive(s[..|s| - 1]);
    }
  }

  /** A canonical numeral is the numeral of its value, so numerals and numbers correspond one to one. */
  lemma {:induction false} NumeralOfValue(s: seq<byte>)
    requires Canonical(s)
    ensures Numeral(Value(s)) == s
  {
    var front, last := s[..|s| - 1], s[|s| - 1];
    if |s| == 1 {
      assert Value(front) == 0;
    } else {
      NumeralOfValue(front);
      ValuePositive(front);
      assert Value(s) / 10 == Value(front) && Value(s) % 10 == last - 0x30;
      assert s == front + [last];
    }
  }

  function Pow10(k: nat): nat {
    if k == 0 then 1 else 10 * Pow10(k - 1)
  }

  lemma {:induction false} LongNumeralIsLarge(n: nat, k: nat)
    requires |Numeral(n)| > k
    ensures n >= Pow10(k) || k == 0
  {
    if k > 1 {
      LongNumeralIsLarge(n / 10, k - 1);
    }
  }

  lemma {:induction false} LargeNumeralIsLong(n: nat, k: nat)
    requires n >= Pow10(k)
    ensures |Numeral(n)| > k
  {
    if k > 0 {
      PowersGrow(0, k - 1);
      LargeNumeralIsLong(n / 10, k - 1);
    }
  }

  lemma {:induction false} PowersGrow(a: nat, e: nat)
    ensures Pow10(a + e) >= Pow10(a) + 9 * e
    ensures Pow10(a) >= 1
  {
    if e > 0 {
      PowersGrow(a, e - 1);
    } else if a > 0 {
      PowersGrow(a - 1, 0);
    }
  }

  /** `n` counts its own digits together with `b` further characters. */
  predicate CountsItself(b: nat, n: nat) {
    n == |Numeral(n)| + b
  }

  /** The sizes that have two such numbers: 8, 97, 996, ... */
  predicate HasTwoCounts(b: nat, d: nat) {
    d >= 1 && b == Pow10(d) - 1 - d
  }

  lemma TwoCounts(b: nat, d: nat)
    requires HasTwoCounts(b, d)
    ensures CountsItself(b, Pow10(d) - 1) && CountsItself(b, Pow10(d))
  {
    var m := Pow10(d) - 1;
    PowersGrow(d - 1, 1);
    assert m >= Pow10(d - 1);
    LargeNumeralIsLong(m, d - 1);
    LargeNumeralIsLong(m + 1, d);
    PowersGrow(d, 1);
    if |Numeral(m)| > d { LongNumeralIsLarge(m, d); }
    if |Numeral(m + 1)| > d + 1 { LongNumeralIsLarge(m + 1, d + 1); }
  }

  /** Two numbers count themselves with the same rest only around a power of ten. */
  lemma CountsAreNeighbours(b: nat, m: nat, n: nat)
    requires CountsItself(b, m) && CountsItself(b, n) && m < n
    ensures HasTwoCounts(b, |Numeral(m)|) && n == m + 1
  {
    var d, e := |Numeral(m)|, |Numeral(n)| - |Numeral(m)| - 1;
    if m >= Pow10(d) { LargeNumeralIsLong(m, d); }
    LongNumeralIsLarge(n, d + e);
    PowersGrow(d, e);
  }

  /** Every u64 prints in at most twenty digits. */
  lemma U64NumeralLength(n: u64)
    ensures |Numeral(n)| <= 20
  {
    assert Pow10(10) == 10_000_000_000;
    assert Pow10(20) == 100_000_000_000_000_000_000;
    if |Numeral(n)| > 20 {
      LongNumeralIsLarge(n, 20);
    }
  }
}
