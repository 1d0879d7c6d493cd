/** Bit strings, most significant bit first: the values they spell, the bits of bytes, and 32-bit words. */
module Bits {
  import opened Prelude

  type bit = b: nat | b < 2

  function Pow2(n: nat): (p: nat)
    ensures p > 0
  {
    if n == 0 then 1 else 2 * Pow2(n - 1)
  }

  /** The number a bit string spells. */
  function Val(s: seq<bit>): nat {
    if s == [] then 0 else 2 * Val(s[..|s| - 1]) + s[|s| - 1]
  }

  /** `(value >> shift) & (2^width - 1)` on an unsigned word. */
  function ShiftMask(value: nat, shift: nat, width: nat): nat {
    value / Pow2(shift) % Pow2(width)
  }

  // ---- Arithmetic of powers of two ----

  lemma {:induction false} Pow2Add(m: nat, n: nat)
    ensures Pow2(m + n) == Pow2(m) * Pow2(n)
  {
    if m > 0 {
      Pow2Add(m - 1, n);
      calc {
        Pow2(m + n);
        2 * Pow2(m - 1 + n);
        2 * (Pow2(m - 1) * Pow2(n));
        2 * Pow2(m - 1) * Pow2(n);
      }
    }
  }

  lemma MulAtLeast(k: int, p: nat)
    requires k >= 1
    ensures k * p >= p
  {
  }

  lemma DivModOfSum(a: nat, p: nat, b: nat)
    requires b < p
    ensures (a * p + b) / p == a && (a * p + b) % p == b
  {
    var n := a * p + b;
    var q, r := n / p, n % p;
    assert n == p * q + r && 0 <= r < p;
    assert (q - a) * p == b - r;
    if q - a >= 1 {
      MulAtLeast(q - a, p);
    } else if a - q >= 1 {
      MulAtLeast(a - q, p);
    }
  }

  // ---- Values of bit strings ----

  lemma {:induction false} ValBound(s: seq<bit>)
    ensures Val(s) < Pow2(|s|)
  {
    if s != [] {
      ValBound(s[..|s| - 1]);
    }
  }

  lemma ValLast(s: seq<bit>)
    requires s != []
    ensures Val(s) == 2 * Val(s[..|s| - 1]) + s[|s| - 1]
  {
  }

  lemma ScaledPush(v: nat, n: nat, w: nat)
    ensures 2 * (v * Pow2(n) + w) == v * Pow2(n + 1) + 2 * w
  {
    assert v * Pow2(n + 1) == 2 * (v * Pow2(n));
  }

  lemma {:induction false} ValAppend(a: seq<bit>, b: seq<bit>)
    ensures Val(a + b) == Val(a) * Pow2(|b|) + Val(b)
  {
    if b == [] {
      assert a + b == a;
    } else {
      hide *;
      var front := b[..|b| - 1];
      ValAppend(a, front);
      assert (a + b)[..|a + b| - 1] == a + front;
      ValLast(a + b);
      ValLast(b);
      ScaledPush(Val(a), |front|, Val(front));
    }
  }

  lemma {:induction false} ValInjective(a: seq<bit>, b: seq<bit>)
    requires |a| == |b| && Val(a) == Val(b)
    ensures a == b
  {
    if a != [] {
      ValInjective(a[..|a| - 1], b[..|b| - 1]);
      assert a == a[..|a| - 1] + [a[|a| - 1]] && b == b[..|b| - 1] + [b[|b| - 1]];
    }
  }

  /** Shifting and masking a word reads a field of its bits. */
  lemma ShiftMaskReadsField(w: seq<bit>, shift: nat, width: nat)
    requires shift + width <= |w|
    ensures ShiftMask(Val(w), shift, width) == Val(w[|w| - shift - width..|w| - shift])
  {
    var front, field, low := w[..|w| - shift - width], w[|w| - shift - width..|w| - shift], w[|w| - shift..];
    assert w == (front + field) + low;
    ValAppend(front + field, low);
    ValAppend(front, field);
    ValBound(low);
    ValBound(field);
    DivModOfSum(Val(front + field), Pow2(shift), Val(low));
    DivModOfSum(Val(front), Pow2(width), Val(field));
  }

  // ---- Bits of numbers and bytes ----

  /** The low `width` bits of a number. */
  function ToBits(n: nat, width: nat): (s: seq<bit>)
    ensures |s| == width
  {
    if width == 0 then [] else ToBits(n / 2, width - 1) + [n % 2]
  }

  lemma {:induction false} BitsOfVal(s: seq<bit>)
    ensures ToBits(Val(s), |s|) == s
  {
    if s != [] {
      BitsOfVal(s[..|s| - 1]);
      assert Val(s) / 2 == Val(s[..|s| - 1]) && Val(s) % 2 == s[|s| - 1];
      assert s == s[..|s| - 1] + [s[|s| - 1]];
    }
  }

  lemma {:induction false} ValOfBits(n: nat, width: nat)
    requires n < Pow2(width)
    ensures Val(ToBits(n, width)) == n
  {
    if width > 0 {
      ValOfBits(n / 2, width - 1);
      assert ToBits(n, width)[..width - 1] == ToBits(n / 2, width - 1);
    }
  }

  /** The derived bit sequence of a byte string. */
  function BitsOf(s: seq<byte>): (bits: seq<bit>)
    ensures |bits| == 8 * |s|
  {
    if s == [] then [] else BitsOf(s[..|s| - 1]) + ToBits(s[|s| - 1], 8)
  }

  lemma {:induction false} BitsOfAppend(a: seq<byte>, b: seq<byte>)
    ensures BitsOf(a + b) == BitsOf(a) + BitsOf(b)
  {
    if b == [] {
      assert a + b == a;
    } else {
      BitsOfAppend(a, b[..|b| - 1]);
      assert (a + b)[..|a + b| - 1] == a + b[..|b| - 1];
    }
  }

  /** Cutting the bytes cuts the bits. */
  lemma BitsOfCut(s: seq<byte>, i: nat)
    requires i <= |s|
    ensures BitsOf(s[..i]) == BitsOf(s)[..8 * i] && BitsOf(s[i..]) == BitsOf(s)[8 * i..]
  {
    hide BitsOf;
    var front, back := BitsOf(s[..i]), BitsOf(s[i..]);
    assert s == s[..i] + s[i..];
    BitsOfAppend(s[..i], s[i..]);
    assert |front| == 8 * i;
    assert (front + back)[..|front|] == front && (front + back)[|front|..] == back;
  }

  lemma BitsOfSlice(s: seq<byte>, i: nat, j: nat)
    requires i <= j <= |s|
    ensures BitsOf(s[i..j]) == BitsOf(s)[8 * i..8 * j]
  {
    hide BitsOf;
    var front := s[..j];
    BitsOfCut(s, j);
    BitsOfCut(front, i);
    assert front[i..] == s[i..j];
    var bits := BitsOf(s);
    assert bits[..8 * j][8 * i..] == bits[8 * i..8 * j];
  }

  lemma BitsOfByte(s: seq<byte>, i: nat)
    requires i < |s|
    ensures BitsOf(s)[8 * i..8 * (i + 1)] == ToBits(s[i], 8)
  {
    BitsOfSlice(s, i, i + 1);
    var one := s[i..i + 1];
    assert one == [s[i]] && one[..0] == [];
    assert BitsOf(one) == BitsOf(one[..0]) + ToBits(one[0], 8);
  }

  /** Reading bytes into a word, most significant first, spells their bits. */
  lemma ByteVal(b: byte)
    ensures Val(ToBits(b, 8)) == b
  {
    assert Pow2(4) == 16 && Pow2(8) == 256;
    ValOfBits(b, 8);
  }

  lemma PushByte(w: seq<bit>, b: byte)
    ensures Val(w + ToBits(b, 8)) == 0x100 * Val(w) + b
  {
    assert Pow2(4) == 16 && Pow2(8) == 256;
    ValAppend(w, ToBits(b, 8));
    ByteVal(b);
  }

  /** A 64-bit accumulator keeps the last 64 bits pushed into it. */
  lemma PushByte64(w: seq<bit>, b: byte)
    requires |w| == 64
    ensures 0x100 * Val(w) % 0x1_0000_0000_0000_0000 + b == Val(w[8..] + ToBits(b, 8))
  {
    var high, low := w[..8], w[8..];
    assert w == high + low;
    Pow2Values();
    hide Pow2, Val, ToBits;
    ValAppend(high, low);
    ValBound(low);
    var m := 0x1_0000_0000_0000_0000;
    assert 0x100 * Val(w) == Val(high) * m + 0x100 * Val(low);
    DivModOfSum(Val(high), m, 0x100 * Val(low));
    PushByte(low, b);
  }

  lemma {:induction false} Pow2Monotone(m: nat, n: nat)
    requires m <= n
    ensures Pow2(m) <= Pow2(n)
  {
    if m < n {
      Pow2Monotone(m, n - 1);
    }
  }

  /** `(acc << 8) | byte` on a u64: the upper eight bits fall out. */
  function ShiftIn(acc: u64, b: byte): u64 {
    0x100 * (acc % 0x100_0000_0000_0000) + b
  }

  lemma ShiftInIs(acc: u64, b: byte)
    ensures ShiftIn(acc, b) == 0x100 * acc % 0x1_0000_0000_0000_0000 + b
  {
    var q, r := acc / 0x100_0000_0000_0000, acc % 0x100_0000_0000_0000;
    assert 0x100 * acc == q * 0x1_0000_0000_0000_0000 + 0x100 * r;
    DivModOfSum(q, 0x1_0000_0000_0000_0000, 0x100 * r);
  }

  /** Shifting a byte into a word that holds the last 64 bits. */
  lemma PushAccumulator(w: seq<bit>, acc: u64, b: byte)
    requires (|w| <= 56 || |w| == 64) && acc == Val(w)
    ensures ShiftIn(acc, b) == Val((if |w| < 64 then w else w[8..]) + ToBits(b, 8))
  {
    ShiftInIs(acc, b);
    hide Val, ToBits, Pow2, ShiftIn;
    if |w| < 64 {
      PushByte(w, b);
      ValBound(w);
      Pow2Monotone(|w|, 56);
      Pow2Values();
    } else {
      PushByte64(w, b);
    }
  }

  lemma Pow2Values()
    ensures Pow2(8) == 0x100 && Pow2(32) == 0x1_0000_0000
    ensures Pow2(48) == 0x1_0000_0000_0000 && Pow2(56) == 0x100_0000_0000_0000
  {
    assert Pow2(8) == 0x100 && Pow2(16) == 0x1_0000 && Pow2(24) == 0x100_0000;
    Pow2Add(16, 16);
    Pow2Add(24, 24);
    Pow2Add(8, 48);
  }

  // ---- 32-bit words ----

  type Word = w: seq<bit> | |w| == 32 witness seq(32, _ => 0)

  function Zero(): (z: Word)
    ensures forall i :: 0 <= i < 32 ==> z[i] == 0
  {
    seq(32, _ => 0)
  }

  function XorBit(a: bit, b: bit): bit {
    if a == b then 0 else 1
  }

  function XorBits(a: seq<bit>, b: seq<bit>): (x: seq<bit>)
    requires |a| == |b|
    ensures |x| == |a|
    ensures forall i :: 0 <= i < |a| ==> x[i] == XorBit(a[i], b[i])
  {
    seq(|a|, i requires 0 <= i < |a| => XorBit(a[i], b[i]))
  }

  function Xor(a: Word, b: Word): Word {
    XorBits(a, b)
  }

  /** `rotate_left(k)` for `k <= 32`. */
  function RotateLeft(w: Word, k: nat): Word
    requires k <= 32
  {
    w[k..] + w[..k]
  }

  lemma XorLaws(a: Word, b: Word, c: Word)
    ensures Xor(a, b) == Xor(b, a)
    ensures Xor(Xor(a, b), c) == Xor(a, Xor(b, c))
    ensures Xor(a, a) == Zero() && Xor(a, Zero()) == a
    ensures Xor(a, b) == Zero() ==> a == b
  {
    assert Xor(a, b) == Zero() ==> forall i :: 0 <= i < 32 ==> Xor(a, b)[i] == 0;
    assert Xor(a, b) == Zero() ==> forall i :: 0 <= i < 32 ==> a[i] == b[i];
  }
}
