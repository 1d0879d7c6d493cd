/** The bzip2 CRC-32: a table-driven byte loop against bit-at-a-time division. */
module Bzip2Crc {
  import opened Prelude
  import opened Bits

  const POLYNOMIAL := 0x04C1_1DB7

  function Poly(): Word {
    ToBits(POLYNOMIAL, 32)
  }

  function Zeros(n: nat): (z: seq<bit>)
    ensures |z| == n && forall i :: 0 <= i < n ==> z[i] == 0
  {
    seq(n, _ => 0)
  }

  function ShiftLeft(w: Word, k: nat): Word
    requires k <= 32
  {
    w[k..] + Zeros(k)
  }

  // ---- The reference: polynomial division, one message bit at a time ----

  /** Feed one message bit, most significant first, into the remainder. */
  function FeedBit(remainder: Word, b: bit): Word {
    if XorBit(remainder[0], b) == 1 then Xor(ShiftLeft(remainder, 1), Poly()) else ShiftLeft(remainder, 1)
  }

  function FeedBits(remainder: Word, message: seq<bit>): Word
    decreases message
  {
    if message == [] then remainder else FeedBits(FeedBit(remainder, message[0]), message[1..])
  }

  /** All ones in, division of the message bits, complement out. */
  function Ones(): Word {
    seq(32, _ => 1)
  }

  function Checksum(message: seq<byte>): Word {
    Xor(FeedBits(Ones(), BitsOf(message)), Ones())
  }

  // ---- The table ----

  /** One step of the table construction: shift, and subtract the polynomial if a one fell out. */
  function Step(w: Word): Word {
    if w[0] == 1 then Xor(ShiftLeft(w, 1), Poly()) else ShiftLeft(w, 1)
  }

  function Steps(w: Word, n: nat): Word
    decreases n
  {
    if n == 0 then w else Steps(Step(w), n - 1)
  }

  function TableEntry(top: seq<bit>): Word
    requires |top| == 8
  {
    Steps(top + Zeros(24), 8)
  }

  predicate IsTable(table: seq<Word>) {
    |table| == 256 && forall i :: 0 <= i < 256 ==> table[i] == TableEntry(ToBits(i, 8))
  }

  /** The two nested loops that fill `BZIP2_CRC32_TABLE`. */
  method BuildTable() returns (table: seq<Word>)
    ensures IsTable(table)
  {
    hide Steps, Step, ToBits;
    table := [];
    while |table| < 256
      invariant |table| <= 256
      invariant forall i :: 0 <= i < |table| ==> table[i] == TableEntry(ToBits(i, 8))
      decreases 256 - |table|
    {
      var start: Word := ToBits(|table|, 8) + Zeros(24);
      var value := start;
      var bitIndex := 0;
      assert Steps(start, 8) == TableEntry(ToBits(|table|, 8));
      while bitIndex < 8
        invariant 0 <= bitIndex <= 8
        invariant Steps(start, 8) == Steps(value, 8 - bitIndex)
      {
        StepsUnfold(value, 8 - bitIndex);
        StepIs(value);
        value := if value[0] != 0 then Xor(ShiftLeft(value, 1), Poly()) else ShiftLeft(value, 1);
        bitIndex := bitIndex + 1;
      }
      StepsUnfold(value, 0);
      table := table + [value];
    }
  }

  lemma StepsUnfold(w: Word, n: nat)
    ensures Steps(w, n) == if n == 0 then w else Steps(Step(w), n - 1)
  {
  }

  lemma StepIs(w: Word)
    ensures Step(w) == if w[0] != 0 then Xor(ShiftLeft(w, 1), Poly()) else ShiftLeft(w, 1)
  {
  }

  // ---- The byte update ----

  /** `(value << 8) ^ table[(value >> 24) ^ byte]`. */
  function UpdateByte(table: seq<Word>, value: Word, b: byte): Word
    requires |table| == 256
  {
    var index := Val(XorBits(value[..8], ToBits(b, 8)));
    IndexInTable(XorBits(value[..8], ToBits(b, 8)));
    Xor(ShiftLeft(value, 8), table[index])
  }

  lemma IndexInTable(w: seq<bit>)
    requires |w| == 8
    ensures Val(w) < 256
  {
    ValBound(w);
    Pow2Values();
  }

  lemma StepIsLinear(a: Word, b: Word)
    ensures Step(Xor(a, b)) == Xor(Step(a), Step(b))
  {
    hide ToBits;
    var p := Poly();
  }

  lemma {:induction false} StepsAreLinear(a: Word, b: Word, n: nat)
    ensures Steps(Xor(a, b), n) == Xor(Steps(a, n), Steps(b, n))
    decreases n
  {
    if n > 0 {
      StepIsLinear(a, b);
      StepsAreLinear(Step(a), Step(b), n - 1);
    }
  }

  /** Leading zeros are shifted out without touching the polynomial. */
  lemma {:induction false} StepsOverZeros(w: Word, n: nat)
    requires n <= 32 && forall i :: 0 <= i < n ==> w[i] == 0
    ensures Steps(w, n) == ShiftLeft(w, n)
    decreases n
  {
    if n == 0 {
      assert ShiftLeft(w, 0) == w;
    } else {
      var v := ShiftLeft(w, 1);
      assert forall i :: 0 <= i < n - 1 ==> v[i] == w[i + 1];
      StepsOverZeros(v, n - 1);
      assert ShiftLeft(v, n - 1) == ShiftLeft(w, n);
    }
  }

  /** Feeding a bit is XORing it into the top and stepping; the bits behind it move up. */
  lemma FeedBitIsStep(w: Word, message: seq<bit>)
    requires 1 <= |message| <= 32
    ensures Step(Xor(w, message + Zeros(32 - |message|)))
         == Xor(FeedBit(w, message[0]), message[1..] + Zeros(33 - |message|))
  {
    hide ToBits;
    var x := Xor(w, message + Zeros(32 - |message|));
    assert x[0] == XorBit(w[0], message[0]);
    assert ShiftLeft(x, 1) == Xor(ShiftLeft(w, 1), message[1..] + Zeros(33 - |message|));
    XorLaws(ShiftLeft(w, 1), message[1..] + Zeros(33 - |message|), Poly());
    XorLaws(ShiftLeft(w, 1), Poly(), message[1..] + Zeros(33 - |message|));
    XorLaws(Poly(), message[1..] + Zeros(33 - |message|), Poly());
  }

  lemma {:induction false} FeedBitsAreSteps(w: Word, message: seq<bit>)
    requires |message| <= 32
    ensures FeedBits(w, message) == Steps(Xor(w, message + Zeros(32 - |message|)), |message|)
    decreases message
  {
    hide Xor, FeedBit, Step;
    if message == [] {
      assert message + Zeros(32) == Zero();
      XorLaws(w, Zero(), Zero());
    } else {
      FeedBitIsStep(w, message);
      FeedBitsAreSteps(FeedBit(w, message[0]), message[1..]);
    }
  }

  /** One table lookup does the work of eight division steps, for every state and byte. */
  lemma TableRefinesDivision(table: seq<Word>, value: Word, b: byte)
    requires IsTable(table)
    ensures UpdateByte(table, value, b) == FeedBits(value, ToBits(b, 8))
  {
    hide Steps, Step, FeedBits, ToBits, Val;
    var byteBits := ToBits(b, 8);
    var top := XorBits(value[..8], byteBits);
    var x := Xor(value, byteBits + Zeros(24));
    FeedBitsAreSteps(value, byteBits);
    var high: Word, low: Word := top + Zeros(24), Zeros(8) + value[8..];
    assert x == Xor(high, low);
    StepsAreLinear(high, low, 8);
    StepsOverZeros(low, 8);
    assert ShiftLeft(low, 8) == ShiftLeft(value, 8);
    IndexInTable(top);
    BitsOfVal(top);
    XorLaws(Steps(high, 8), ShiftLeft(value, 8), high);
  }

  // ---- The hasher ----

  lemma {:induction false} FeedAppend(w: Word, a: seq<bit>, b: seq<bit>)
    ensures FeedBits(w, a + b) == FeedBits(FeedBits(w, a), b)
    decreases a
  {
    hide FeedBit;
    if a == [] {
      assert a + b == b;
    } else {
      FeedAppend(FeedBit(w, a[0]), a[1..], b);
      assert (a + b)[1..] == a[1..] + b;
    }
  }

  /** The running hasher; `fed` is everything it was given so far. */
  class Bzip2Crc32 {
    const table: seq<Word>
    var value: Word
    ghost var fed: seq<byte>

    /** The value is the remainder of all bytes fed. */
    ghost predicate Valid()
      reads this
    {
      IsTable(table) && value == FeedBits(Ones(), BitsOf(fed))
    }

    constructor (table: seq<Word>)
      requires IsTable(table)
      ensures Valid() && fed == []
    {
      this.table := table;
      value, fed := Ones(), [];
      FeedNothing(Ones());
    }

    method Update(bytes: seq<byte>)
      requires Valid()
      modifies this
      ensures Valid() && fed == old(fed) + bytes
    {
      hide FeedBits, UpdateByte, TableEntry, ToBits, BitsOf, IsTable;
      assert fed + bytes[..0] == fed;
      for i := 0 to |bytes|
        invariant Valid() && fed == old(fed) + bytes[..i]
      {
        assert fed + [bytes[i]] == old(fed) + bytes[..i + 1];
        FeedOneByte(table, value, fed, bytes[i]);
        value := UpdateByte(table, value, bytes[i]);
        fed := fed + [bytes[i]];
      }
      assert bytes[..|bytes|] == bytes;
    }

    /** The checksum of everything fed. */
    method Finalize() returns (crc: Word)
      requires Valid()
      ensures crc == Checksum(fed)
    {
      crc := Xor(value, Ones());
    }
  }

  lemma FeedOneByte(table: seq<Word>, value: Word, fed: seq<byte>, b: byte)
    requires IsTable(table) && value == FeedBits(Ones(), BitsOf(fed))
    ensures |table| == 256 && UpdateByte(table, value, b) == FeedBits(Ones(), BitsOf(fed + [b]))
  {
    assert (fed + [b])[..|fed|] == fed;
    assert BitsOf(fed + [b]) == BitsOf(fed) + ToBits(b, 8);
    hide FeedBits, UpdateByte, ToBits, BitsOf, IsTable;
    TableRefinesDivision(table, value, b);
    FeedAppend(Ones(), BitsOf(fed), ToBits(b, 8));
  }

  function Flatten(chunks: seq<seq<byte>>): seq<byte> {
    if chunks == [] then [] else Flatten(chunks[..|chunks| - 1]) + chunks[|chunks| - 1]
  }

  /** Hashing a stream chunk by chunk gives the checksum of the whole stream, wherever the cuts are. */
  method HashChunks(chunks: seq<seq<byte>>) returns (crc: Word)
    ensures crc == Checksum(Flatten(chunks))
  {
    hide FeedBits, IsTable, BitsOf;
    var table := BuildTable();
    var hasher := new Bzip2Crc32(table);
    assert Flatten(chunks[..0]) == [];
    for i := 0 to |chunks|
      invariant hasher.Valid() && hasher.fed == Flatten(chunks[..i])
    {
      assert chunks[..i + 1][..i] == chunks[..i];
      hasher.Update(chunks[i]);
    }
    assert chunks[..|chunks|] == chunks;
    crc := hasher.Finalize();
  }

  lemma FeedNothing(w: Word)
    ensures FeedBits(w, BitsOf([])) == w
  {
  }

  /** The reference checksum of a concatenation continues from the remainder of its first part. */
  lemma ChecksumOfConcatenation(a: seq<byte>, b: seq<byte>)
    ensures Checksum(a + b) == Xor(FeedBits(FeedBits(Ones(), BitsOf(a)), BitsOf(b)), Ones())
  {
    BitsOfAppend(a, b);
    FeedAppend(Ones(), BitsOf(a), BitsOf(b));
  }
}
