/** The one demand of the bzip2 parser that the covering audit does not make: the first block follows the header. */
module Bzip2FirstBlock {
  import opened Prelude
  import opened Bits
  import opened Bzip2

  /** An audited stream has an agreeing prefix exactly when its first block starts at bit 32. */
  lemma AuditedPrefix(source: Source, e: Evidence)
    requires AuditAccepts(source, e)
    ensures PrefixAgrees(source, e.level) <==> e.container.blockOffsets[0] == 32
  {
    hide BitsOf, FooterAt, PaddingIsZero, BlockStarts, FoldAll;
    var bits, c := BitsOf(source), e.container;
    var footer := c.payloadBits - FOOTER_BITS;
    var starts := BlockStarts(bits, footer, |bits|);
    FooterRange(bits, c.paddingBits);
    BlockStartsAreExact(bits, footer, |bits|);
    assert c.blockOffsets[0] in starts;
    assert FrameAgrees(bits, footer, c.blockOffsets[0], c.blockCrcs[0]);
    if PrefixAgrees(source, e.level) {
      assert 32 in starts;
      var i :| 0 <= i < |starts| && starts[i] == 32;
      assert i > 0 ==> starts[0] < starts[i];
    }
  }

  // ---- A stream that only the audit accepts ----

  /** A level-1 stream with a zero byte between the header and its one block. */
  const STREAM: seq<byte> := [
    0x42, 0x5A, 0x68, 0x31, 0x00,
    0x31, 0x41, 0x59, 0x26, 0x53, 0x59, 0x00, 0x00, 0x00, 0x00, 0x00,
    0x17, 0x72, 0x45, 0x38, 0x50, 0x90, 0x00, 0x00, 0x00, 0x00]

  /** The set bits from the zero byte to the end of the block magic. */
  predicate IsSet(q: int) {
    || q == 42 || q == 43 || q == 47 || q == 49 || q == 55 || q == 57 || q == 59 || q == 60 || q == 63
    || q == 66 || q == 69 || q == 70 || q == 73 || q == 75 || q == 78 || q == 79 || q == 81 || q == 83 || q == 84
    || q == 87
  }

  lemma LastBit(n: nat, width: nat)
    ensures ToBits(n, width + 1) == ToBits(n / 2, width) + [n % 2]
  {
  }

  lemma EightBits(b: byte)
    ensures var h1 := b / 2; var h2 := h1 / 2; var h3 := h2 / 2; var h4 := h3 / 2;
            var h5 := h4 / 2; var h6 := h5 / 2; var h7 := h6 / 2;
            ToBits(b, 8) == [h7 % 2, h6 % 2, h5 % 2, h4 % 2, h3 % 2, h2 % 2, h1 % 2, b % 2]
  {
    var h1: nat := b / 2;
    var h2 := h1 / 2;
    var h3 := h2 / 2;
    var h4 := h3 / 2;
    var h5 := h4 / 2;
    var h6 := h5 / 2;
    var h7 := h6 / 2;
    assert ToBits(h7 / 2, 0) == [];
    hide ToBits;
    LastBit(h7, 0);
    LastBit(h6, 1);
    LastBit(h5, 2);
    LastBit(h4, 3);
    LastBit(h3, 4);
    LastBit(h2, 5);
    LastBit(h1, 6);
    LastBit(b, 7);
  }

  lemma Byte00()
    ensures ToBits(0x00, 8) == [0, 0, 0, 0, 0, 0, 0, 0]
  {
    hide ToBits;
    EightBits(0x00);
  }

  lemma Byte31()
    ensures ToBits(0x31, 8) == [0, 0, 1, 1, 0, 0, 0, 1]
  {
    hide ToBits;
    EightBits(0x31);
  }

  lemma Byte41()
    ensures ToBits(0x41, 8) == [0, 1, 0, 0, 0, 0, 0, 1]
  {
    hide ToBits;
    EightBits(0x41);
  }

  lemma Byte59()
    ensures ToBits(0x59, 8) == [0, 1, 0, 1, 1, 0, 0, 1]
  {
    hide ToBits;
    EightBits(0x59);
  }

  lemma Byte26()
    ensures ToBits(0x26, 8) == [0, 0, 1, 0, 0, 1, 1, 0]
  {
    hide ToBits;
    EightBits(0x26);
  }

  lemma Byte53()
    ensures ToBits(0x53, 8) == [0, 1, 0, 1, 0, 0, 1, 1]
  {
    hide ToBits;
    EightBits(0x53);
  }

  lemma ByteBits()
    ensures ToBits(0x00, 8) == [0, 0, 0, 0, 0, 0, 0, 0] && ToBits(0x31, 8) == [0, 0, 1, 1, 0, 0, 0, 1]
    ensures ToBits(0x41, 8) == [0, 1, 0, 0, 0, 0, 0, 1] && ToBits(0x59, 8) == [0, 1, 0, 1, 1, 0, 0, 1]
    ensures ToBits(0x26, 8) == [0, 0, 1, 0, 0, 1, 1, 0] && ToBits(0x53, 8) == [0, 1, 0, 1, 0, 0, 1, 1]
  {
    hide ToBits;
    Byte00();
    Byte31();
    Byte41();
    Byte59();
    Byte26();
    Byte53();
  }

  lemma StreamBit(q: nat)
    requires 32 <= q < 88
    ensures BitsOf(STREAM)[q] == (if IsSet(q) then 1 else 0)
  {
    ByteBits();
    hide BitsOf, ToBits;
    var i := q / 8;
    BitsOfByte(STREAM, i);
    assert BitsOf(STREAM)[q] == BitsOf(STREAM)[8 * i..8 * (i + 1)][q - 8 * i];
  }

  /** The block magic begins with 00110001. */
  lemma BlockLeadingBits(w: seq<bit>)
    requires |w| == 48 && Val(w) == BLOCK_MAGIC
    ensures w[..8] == [0, 0, 1, 1, 0, 0, 0, 1]
  {
    ShiftMaskReadsField(w, 40, 8);
    Pow2Values();
    Pow2Add(8, 32);
    assert Val(w[0..8]) == 0x31;
    BitsOfVal(w[0..8]);
    ByteBits();
    assert w[0..8] == w[..8];
  }

  lemma BigEndian6(a: byte, b: byte, c: byte, d: byte, e: byte, f: byte)
    ensures Val(BitsOf([a, b, c, d, e, f])) ==
            ((((a as nat * 0x100 + b as nat) * 0x100 + c as nat) * 0x100 + d as nat) * 0x100 + e as nat) * 0x100 +
            f as nat
  {
    AppendByte([], a);
    AppendByte([a], b);
    AppendByte([a, b], c);
    AppendByte([a, b, c], d);
    AppendByte([a, b, c, d], e);
    AppendByte([a, b, c, d, e], f);
    assert BitsOf([]) == [] && Val([]) == 0;
    assert [] + [a] == [a] && [a] + [b] == [a, b] && [a, b] + [c] == [a, b, c];
    assert [a, b, c] + [d] == [a, b, c, d] && [a, b, c, d] + [e] == [a, b, c, d, e];
    assert [a, b, c, d, e] + [f] == [a, b, c, d, e, f];
  }

  lemma AppendByte(s: seq<byte>, b: byte)
    ensures Val(BitsOf(s + [b])) == 0x100 * Val(BitsOf(s)) + b
  {
    assert (s + [b])[..|s|] == s;
    assert BitsOf(s + [b]) == BitsOf(s) + ToBits(b, 8);
    PushByte(BitsOf(s), b);
  }

  lemma SixBytes(s: seq<byte>, i: nat)
    requires i + 6 <= |s|
    ensures s[i..i + 6] == [s[i], s[i + 1], s[i + 2], s[i + 3], s[i + 4], s[i + 5]]
  {
  }

  lemma StreamMagics()
    ensures MagicAt(BitsOf(STREAM), 40, BLOCK_MAGIC) && MagicAt(BitsOf(STREAM), 128, EOS_MAGIC)
  {
    hide BitsOf, Val;
    BitsOfSlice(STREAM, 5, 11);
    SixBytes(STREAM, 5);
    BigEndian6(0x31, 0x41, 0x59, 0x26, 0x53, 0x59);
    BitsOfSlice(STREAM, 16, 22);
    SixBytes(STREAM, 16);
    BigEndian6(0x17, 0x72, 0x45, 0x38, 0x50, 0x90);
  }

  lemma NoOtherStart(p: nat)
    requires 32 <= p <= 80 && MagicAt(BitsOf(STREAM), p, BLOCK_MAGIC)
    ensures p == 40
  {
    var bits := BitsOf(STREAM);
    hide BitsOf, Val;
    var w := bits[p..p + 48];
    BlockLeadingBits(w);
    forall k | 0 <= k < 8 ensures w[..8][k] == (if IsSet(p + k) then 1 else 0) {
      StreamBit(p + k);
    }
    var lead := [0, 0, 1, 1, 0, 0, 0, 1];
    assert w[..8][2] == lead[2] && w[..8][3] == lead[3] && w[..8][0] == lead[0] && w[..8][1] == lead[1];
    assert w[..8][7] == lead[7] && w[..8][4] == lead[4] && w[..8][5] == lead[5] && w[..8][6] == lead[6];
  }

  lemma FirstStep(s: seq<nat>)
    requires Increasing(s)
    ensures |s| > 1 ==> s[0] < s[1]
  {
  }

  lemma OnlyElement(s: seq<nat>, p: nat)
    requires Increasing(s) && forall q: nat :: q in s <==> q == p
    ensures s == [p]
  {
    assert p in s;
    assert forall i :: 0 <= i < |s| ==> s[i] in s;
    FirstStep(s);
  }

  lemma StreamStarts()
    ensures BlockStarts(BitsOf(STREAM), 128, 208) == [40]
  {
    hide BitsOf, Val, BlockStarts;
    var bits := BitsOf(STREAM);
    BlockStartsAreExact(bits, 128, 208);
    StreamMagics();
    forall q: nat | q in BlockStarts(bits, 128, 208) ensures q == 40 {
      NoOtherStart(q);
    }
    OnlyElement(BlockStarts(bits, 128, 208), 40);
  }

  /** Bits of a run of zero bytes. */
  lemma {:induction false} ZeroBits(s: seq<byte>)
    requires AllZero(s)
    ensures forall i :: 0 <= i < 8 * |s| ==> BitsOf(s)[i] == 0
  {
    if s != [] {
      var front := s[..|s| - 1];
      ZeroBits(front);
      ByteBits();
      assert BitsOf(s) == BitsOf(front) + ToBits(0, 8);
    }
  }

  lemma StreamZeroes()
    ensures BitsOf(STREAM)[88..120] == Zero() && BitsOf(STREAM)[120] == 0 && BitsOf(STREAM)[176..208] == Zero()
  {
    hide BitsOf;
    var bits := BitsOf(STREAM);
    BitsOfSlice(STREAM, 11, 16);
    assert STREAM[11..16] == [0, 0, 0, 0, 0];
    ZeroBits(STREAM[11..16]);
    forall i | 88 <= i < 128 ensures bits[i] == 0 {
      assert bits[i] == bits[88..128][i - 88];
    }
    BitsOfSlice(STREAM, 22, 26);
    assert STREAM[22..26] == [0, 0, 0, 0];
    ZeroBits(STREAM[22..26]);
  }

  /** The audit accepts this stream; neither half of the parser does. */
  lemma AuditAcceptsWhatParserRefuses(derivedOutputSha256: seq<byte>)
    requires LowercaseHex64(derivedOutputSha256)
    ensures var c := Container(208, 0, [40], [Zero()], Zero());
            && AuditAccepts(STREAM, Evidence(ByteRange(0, 4), 1, c, derivedOutputSha256))
            && !PrefixAgrees(STREAM, 1) && forall max :: !ParserExtras(c, max)
  {
    hide BitsOf, Val, BlockStarts;
    var bits := BitsOf(STREAM);
    var c := Container(208, 0, [40], [Zero()], Zero());
    assert |STREAM| == 26 && |bits| == 208;
    StreamMagics();
    StreamStarts();
    StreamZeroes();
    NoPadding(bits);
    assert FooterAt(bits, 0) && c.blockOffsets == BlockStarts(bits, 128, |bits|);
    assert FrameAgrees(bits, 128, 40, Zero());
    assert FoldAll(c.blockCrcs) == Zero() by { FoldOfZero(); }
    var e := Evidence(ByteRange(0, 4), 1, c, derivedOutputSha256);
    assert AuditAccepts(STREAM, e);
    AuditedPrefix(STREAM, e);
  }

  lemma FoldOfZero()
    ensures FoldAll([Zero()]) == Zero()
  {
    assert FoldAll([Zero()]) == FoldCombinedCrc(FoldAll([]), Zero());
    assert Xor(RotateLeft(Zero(), 1), Zero()) == Zero();
  }
}
