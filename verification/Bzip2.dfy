/** Bit-exact replay of a restricted bzip2 container, twice: by the decoder module and by the covering audit. */
module Bzip2 {
  import opened Prelude
  import opened Bits

  const BLOCK_MAGIC := 0x3141_5926_5359
  const EOS_MAGIC := 0x1772_4538_5090
  const BLOCK_FRAME_BITS := 81
  const FOOTER_BITS := 80
  const MAX_BLOCKS := 65536
  const STEP_BYTES := 0x1_0000

  /** A source whose bit positions are u64 numbers. */
  type Source = s: seq<byte> | 8 * |s| <= U64_MAX

  datatype ErrorKind =
    | Truncated
    | Magic
    | VersionUnsupported
    | LevelBounds
    | EmptyStream
    | StreamStructure
    | RandomizedBlock
    | BlockBounds
    | HeaderLimit

  // ---- Fields of the bit sequence ----

  /** The 48 bits at position `p` spell `magic`. */
  predicate MagicAt(bits: seq<bit>, p: nat, magic: nat) {
    p + 48 <= |bits| && Val(bits[p..p + 48]) == magic
  }

  /** The end-of-stream magic and 32 more bits sit flush against the last `pad` bits. */
  predicate FooterAt(bits: seq<bit>, pad: nat) {
    pad < 8 && pad + FOOTER_BITS <= |bits| && MagicAt(bits, |bits| - pad - FOOTER_BITS, EOS_MAGIC)
  }

  predicate PaddingIsZero(bits: seq<bit>, pad: nat) {
    pad <= |bits| && Val(bits[|bits| - pad..]) == 0
  }

  /** Every start in `[32, upto - 48]` of a block magic that ends by `footer`, in increasing order. */
  function BlockStarts(bits: seq<bit>, footer: nat, upto: nat): seq<nat>
    requires upto <= |bits|
  {
    if upto < 80 then []
    else BlockStarts(bits, footer, upto - 1)
         + (if upto <= footer && MagicAt(bits, upto - 48, BLOCK_MAGIC) then [upto - 48] else [])
  }

  /** One block: its frame ends before the footer, and the bits after the magic are its CRC and a zero flag. */
  predicate FrameAgrees(bits: seq<bit>, footer: nat, offset: nat, crc: Word) {
    offset + BLOCK_FRAME_BITS <= footer <= |bits| && bits[offset + 48..offset + 80] == crc && bits[offset + 80] == 0
  }

  /** `fold_combined_crc`: rotate left one bit, then XOR. */
  function FoldCombinedCrc(combined: Word, blockCrc: Word): Word {
    Xor(RotateLeft(combined, 1), blockCrc)
  }

  function FoldAll(crcs: seq<Word>): Word {
    if crcs == [] then Zero() else FoldCombinedCrc(FoldAll(crcs[..|crcs| - 1]), crcs[|crcs| - 1])
  }

  datatype Container = Container(
    payloadBits: nat,
    paddingBits: nat,
    blockOffsets: seq<nat>,
    blockCrcs: seq<Word>,
    combinedCrc: Word)

  /** The whole container, read off the bits. */
  predicate ContainerAgrees(bits: seq<bit>, c: Container) {
    && FooterAt(bits, c.paddingBits)
    && PaddingIsZero(bits, c.paddingBits)
    && c.payloadBits == |bits| - c.paddingBits
    && c.combinedCrc == bits[c.payloadBits - 32..c.payloadBits]
    && c.blockOffsets == BlockStarts(bits, c.payloadBits - FOOTER_BITS, |bits|)
    && 1 <= |c.blockOffsets| <= MAX_BLOCKS
    && |c.blockCrcs| == |c.blockOffsets|
    && (forall i :: 0 <= i < |c.blockCrcs| ==>
          FrameAgrees(bits, c.payloadBits - FOOTER_BITS, c.blockOffsets[i], c.blockCrcs[i]))
    && FoldAll(c.blockCrcs) == c.combinedCrc
  }

  /** Header, frames and footer with its padding, rounded up to whole bytes. */
  function FramesBytes(blocks: nat, paddingBits: nat): nat {
    (32 + BLOCK_FRAME_BITS * blocks + FOOTER_BITS + paddingBits + 7) / 8
  }

  function MetadataBytes(c: Container): nat {
    FramesBytes(|c.blockOffsets|, c.paddingBits)
  }

  // ---- The block starts, declaratively ----

  predicate Increasing(s: seq<nat>) {
    forall i, j :: 0 <= i < j < |s| ==> s[i] < s[j]
  }

  /** The scan list is exactly the set of block-magic positions, strictly increasing. */
  lemma {:induction false} BlockStartsAreExact(bits: seq<bit>, footer: nat, upto: nat)
    requires upto <= |bits|
    ensures Increasing(BlockStarts(bits, footer, upto))
    ensures forall p: nat :: p in BlockStarts(bits, footer, upto) <==>
              32 <= p && p + 48 <= footer && p + 48 <= upto && MagicAt(bits, p, BLOCK_MAGIC)
  {
    if upto >= 80 {
      BlockStartsAreExact(bits, footer, upto - 1);
      var before := BlockStarts(bits, footer, upto - 1);
      assert forall i :: 0 <= i < |before| ==> before[i] in before;
    }
  }

  // ---- Reading words ----

  /** Folding bytes into a word, most significant first. */
  method ReadWord(bytes: seq<byte>) returns (word: nat)
    ensures word == Val(BitsOf(bytes))
  {
    word := 0;
    for i := 0 to |bytes|
      invariant word == Val(BitsOf(bytes[..i]))
    {
      assert bytes[..i + 1][..i] == bytes[..i];
      PushByte(BitsOf(bytes[..i]), bytes[i]);
      word := 0x100 * word + bytes[i];
    }
    assert bytes[..|bytes|] == bytes;
  }

  /** The last `min(n, 64)` bits before position `n`. */
  function Window(bits: seq<bit>, n: nat): seq<bit>
    requires n <= |bits|
  {
    if n <= 64 then bits[..n] else bits[n - 64..n]
  }

  lemma WindowGrows(bits: seq<bit>, i: nat)
    requires 8 * (i + 1) <= |bits|
    ensures var w := Window(bits, 8 * i);
            Window(bits, 8 * (i + 1)) == (if |w| < 64 then w else w[8..]) + bits[8 * i..8 * (i + 1)]
  {
  }

  /** Pushing a byte keeps the accumulator equal to the window. */
  lemma AccumulatorStep(source: Source, i: nat, acc: u64)
    requires i < |source| && acc == Val(Window(BitsOf(source), 8 * i))
    ensures ShiftIn(acc, source[i]) == Val(Window(BitsOf(source), 8 * (i + 1)))
  {
    hide *;
    WindowLength(BitsOf(source), i);
    WindowGrows(BitsOf(source), i);
    BitsOfByte(source, i);
    PushAccumulator(Window(BitsOf(source), 8 * i), acc, source[i]);
  }

  lemma WindowLength(bits: seq<bit>, i: nat)
    requires 8 * i <= |bits|
    ensures |Window(bits, 8 * i)| <= 56 || |Window(bits, 8 * i)| == 64
  {
  }

  /** The eight shifts of the accumulator look at the eight fields that end in the last byte. */
  lemma AccumulatorReadsField(bits: seq<bit>, end: nat, shift: nat)
    requires 80 <= end <= |bits| && shift < 8
    ensures ShiftMask(Val(Window(bits, end)), shift, 48) == Val(bits[end - shift - 48..end - shift])
  {
    hide Val, ShiftMask;
    var w := Window(bits, end);
    var from := if end <= 64 then 0 else end - 64;
    assert w == bits[from..end];
    ShiftMaskReadsField(w, shift, 48);
    SliceOfSlice(bits, from, end, |w| - shift - 48, |w| - shift);
  }

  // ---- The scan ----

  /** The state of the scan after `n` bits: the accumulator, and the starts found so far. */
  ghost predicate Scanned(bits: seq<bit>, n: nat, footer: nat, limit: nat, acc: u64, found: seq<nat>) {
    && n <= |bits|
    && acc == Val(Window(bits, n))
    && found == BlockStarts(bits, footer, n) && |found| <= limit
  }

  lemma ScanBegins(bits: seq<bit>, footer: nat, limit: nat)
    ensures Scanned(bits, 0, footer, limit, 0, [])
  {
  }

  lemma ScanTakesByte(source: Source, i: nat, footer: nat, limit: nat, acc: u64, found: seq<nat>)
    requires i < |source| && Scanned(BitsOf(source), 8 * i, footer, limit, acc, found)
    ensures ShiftIn(acc, source[i]) == Val(Window(BitsOf(source), 8 * (i + 1)))
    ensures found == BlockStarts(BitsOf(source), footer, 8 * (i + 1) - 8) && |found| <= limit
  {
    hide BitsOf, Val, Window, BlockStarts, ShiftIn;
    AccumulatorStep(source, i, acc);
  }

  lemma ScanEnds(bits: seq<bit>, footer: nat, limit: nat, acc: u64, found: seq<nat>)
    requires Scanned(bits, |bits|, footer, limit, acc, found)
    ensures found == BlockStarts(bits, footer, |bits|) && |found| <= limit
  {
  }

  lemma {:induction false} FewerStartsBefore(bits: seq<bit>, footer: nat, m: nat, n: nat)
    requires m <= n <= |bits|
    ensures |BlockStarts(bits, footer, m)| <= |BlockStarts(bits, footer, n)|
  {
    if m < n {
      FewerStartsBefore(bits, footer, m, n - 1);
    }
  }

  /** The shift loop for one byte; `None` once more than `limit` starts are known. */
  method ScanByte(acc: u64, endBits: nat, footer: nat, limit: nat, found: seq<nat>, ghost bits: seq<bit>)
    returns (now: Option<seq<nat>>)
    requires 8 <= endBits <= |bits| && acc == Val(Window(bits, endBits))
    requires found == BlockStarts(bits, footer, endBits - 8) && |found| <= limit
    ensures now.Some? ==> Scanned(bits, endBits, footer, limit, acc, now.value)
    ensures now.None? ==> |BlockStarts(bits, footer, endBits)| > limit
  {
    hide Val, Pow2;
    if endBits < 32 + 48 {
      return Some(found);
    }
    var offsets := found;
    var shift: nat := 8;
    while shift > 0
      invariant shift <= 8
      invariant offsets == BlockStarts(bits, footer, endBits - shift) && |offsets| <= limit
    {
      shift := shift - 1;
      AccumulatorReadsField(bits, endBits, shift);
      var start: int := endBits - shift - 48;
      if start < 32 || start + 48 > footer {
        continue;
      }
      if ShiftMask(acc, shift, 48) == BLOCK_MAGIC {
        offsets := offsets + [start];
        if |offsets| > limit {
          FewerStartsBefore(bits, footer, endBits - shift, endBits);
          return None;
        }
      }
    }
    return Some(offsets);
  }

  /** The loop over the bytes of one chunk, which `cursor` bytes precede. */
  method ScanChunk(source: Source, cursor: nat, chunk: seq<byte>, footer: nat, limit: nat, start: u64, found: seq<nat>)
    returns (acc: u64, now: Option<seq<nat>>)
    requires cursor + |chunk| <= |source| && chunk == source[cursor..cursor + |chunk|]
    requires Scanned(BitsOf(source), 8 * cursor, footer, limit, start, found)
    ensures now.Some? ==> Scanned(BitsOf(source), 8 * (cursor + |chunk|), footer, limit, acc, now.value)
    ensures now.None? ==> |BlockStarts(BitsOf(source), footer, 8 * |source|)| > limit
  {
    hide *;
    ghost var bits := BitsOf(source);
    acc := start;
    var offsets := found;
    for k := 0 to |chunk|
      invariant Scanned(bits, 8 * (cursor + k), footer, limit, acc, offsets)
    {
      ScanTakesByte(source, cursor + k, footer, limit, acc, offsets);
      acc := ShiftIn(acc, chunk[k]);
      var scanned := ScanByte(acc, 8 * (cursor + k + 1), footer, limit, offsets, bits);
      if scanned.None? {
        FewerStartsBefore(bits, footer, 8 * (cursor + k + 1), 8 * |source|);
        return acc, None;
      }
      offsets := scanned.value;
    }
    return acc, Some(offsets);
  }

  /**
   `scan_block_magics` and the scan loop of the audit, which differ only in the count they give up at:
   a rolling 64-bit accumulator over bounded chunks, eight shifts per byte.
   */
  method ScanBlockMagics(source: Source, footer: nat, limit: nat) returns (offsets: Option<seq<nat>>)
    ensures var starts := BlockStarts(BitsOf(source), footer, 8 * |source|);
            offsets == if |starts| <= limit then Some(starts) else None
  {
    ghost var bits := BitsOf(source);
    assert STEP_BYTES > 0;
    hide *;
    ScanBegins(bits, footer, limit);
    var found: seq<nat> := [];
    var acc: u64, cursor: nat := 0, 0;
    while cursor < |source|
      invariant cursor <= |source| && Scanned(bits, 8 * cursor, footer, limit, acc, found)
    {
      var step := if |source| - cursor < STEP_BYTES then |source| - cursor else STEP_BYTES;
      var scanned;
      acc, scanned := ScanChunk(source, cursor, source[cursor..cursor + step], footer, limit, acc, found);
      if scanned.None? {
        return None;
      }
      found := scanned.value;
      cursor := cursor + step;
    }
    ScanEnds(bits, footer, limit, acc, found);
    return Some(found);
  }

  // ---- The footer ----

  /** Two copies of the end-of-stream magic cannot start one to seven bits apart. */
  lemma EosMagicHasNoSelfOverlap(bits: seq<bit>, p: nat, d: nat)
    requires MagicAt(bits, p, EOS_MAGIC) && 1 <= d <= 7
    ensures !MagicAt(bits, p + d, EOS_MAGIC)
  {
    if MagicAt(bits, p + d, EOS_MAGIC) {
      var e, f := bits[p..p + 48], bits[p + d..p + d + 48];
      EosLeadingBits(e);
      var i := if d == 1 then 2 else if d == 2 || d == 4 then 1 else 0;
      assert e[i] == e[..8][i] && e[i + d] == e[..8][i + d];
      assert f[i] == e[i + d];
      ValInjective(e, f);
    }
  }

  lemma EosLeadingBits(e: seq<bit>)
    requires |e| == 48 && Val(e) == EOS_MAGIC
    ensures e[..8] == [0, 0, 0, 1, 0, 1, 1, 1]
  {
    ShiftMaskReadsField(e, 40, 8);
    Pow2Values();
    Pow2Add(8, 32);
    assert Val(e[0..8]) == 0x17;
    BitsOfVal(e[0..8]);
    assert ToBits(0x17, 8) == [0, 0, 0, 1, 0, 1, 1, 1];
    assert e[0..8] == e[..8];
  }

  /** At most one padding shift can place the footer, so its recovery is never ambiguous. */
  lemma FooterIsUnique(bits: seq<bit>, p: nat, q: nat)
    requires FooterAt(bits, p) && FooterAt(bits, q)
    ensures p == q
  {
    if p < q {
      EosMagicHasNoSelfOverlap(bits, |bits| - q - FOOTER_BITS, q - p);
    } else if q < p {
      EosMagicHasNoSelfOverlap(bits, |bits| - p - FOOTER_BITS, p - q);
    }
  }

  /** The last bytes of the source as one number of at most 128 bits. */
  method ReadTail(source: Source) returns (tailLen: nat, tail: nat)
    ensures tailLen == (if |source| < 16 then |source| else 16)
    ensures tail == Val(BitsOf(source)[8 * (|source| - tailLen)..])
  {
    tailLen := if |source| < 16 then |source| else 16;
    var bytes := source[|source| - tailLen..|source|];
    tail := ReadWord(bytes);
    BitsOfSlice(source, |source| - tailLen, |source|);
    var bits := BitsOf(source);
    assert bits[8 * (|source| - tailLen)..8 * |source|] == bits[8 * (|source| - tailLen)..];
  }

  /** What shifting and masking the tail reads. */
  lemma TailFields(bits: seq<bit>, n: nat, shift: nat, width: nat)
    requires shift + width <= n <= |bits|
    ensures ShiftMask(Val(bits[|bits| - n..]), shift, width) == Val(bits[|bits| - shift - width..|bits| - shift])
  {
    hide Val, ShiftMask;
    var w := bits[|bits| - n..|bits|];
    assert w == bits[|bits| - n..];
    ShiftMaskReadsField(w, shift, width);
    SliceOfSlice(bits, |bits| - n, |bits|, n - shift - width, n - shift);
  }

  /** One padding shift of the tail, as both replays test it. */
  lemma TailAtShift(bits: seq<bit>, n: nat, pad: nat)
    requires pad < 8 && pad + FOOTER_BITS <= n <= |bits|
    ensures ShiftMask(Val(bits[|bits| - n..]), pad + 32, 48) == EOS_MAGIC <==> FooterAt(bits, pad)
    ensures ToBits(ShiftMask(Val(bits[|bits| - n..]), pad, 32), 32) == bits[|bits| - pad - 32..|bits| - pad]
    ensures ShiftMask(Val(bits[|bits| - n..]), 0, pad) == 0 <==> PaddingIsZero(bits, pad)
  {
    hide Val, ToBits, ShiftMask;
    TailFields(bits, n, pad + 32, 48);
    TailFields(bits, n, pad, 32);
    TailFields(bits, n, 0, pad);
    BitsOfVal(bits[|bits| - pad - 32..|bits| - pad]);
    assert bits[|bits| - pad..|bits|] == bits[|bits| - pad..];
  }

  lemma FooterRange(bits: seq<bit>, pad: nat)
    requires FooterAt(bits, pad)
    ensures pad < 8 && pad + FOOTER_BITS <= |bits|
  {
  }

  /** What the footer recovery has to find. */
  predicate FooterFound(bits: seq<bit>, pad: nat, combined: Word) {
    && FooterAt(bits, pad)
    && PaddingIsZero(bits, pad)
    && combined == bits[|bits| - pad - 32..|bits| - pad]
  }

  /** One pass of the padding loop: `None` when this shift has no footer, an error when its padding is not zero. */
  method TryShift(tail: nat, tailLen: nat, pad: nat, ghost bits: seq<bit>) returns (r: Result<Option<Word>, ErrorKind>)
    requires pad < 8 && pad + FOOTER_BITS <= 8 * tailLen <= |bits| && tail == Val(bits[|bits| - 8 * tailLen..])
    ensures r == Ok(None) <==> !FooterAt(bits, pad)
    ensures r.Ok? && r.value.Some? ==> FooterFound(bits, pad, r.value.value)
    ensures r.Err? ==> r.error == StreamStructure && !PaddingIsZero(bits, pad)
  {
    hide Val, ToBits, FooterAt, PaddingIsZero;
    TailAtShift(bits, 8 * tailLen, pad);
    if ShiftMask(tail, pad + 32, 48) != EOS_MAGIC {
      return Ok(None);
    }
    NoPadding(bits);
    if pad > 0 && ShiftMask(tail, 0, pad) != 0 {
      return Err(StreamStructure);
    }
    return Ok(Some(ToBits(ShiftMask(tail, pad, 32), 32)));
  }

  /** The footer recovery of `parse_container`; the branch for a second match is unreachable. */
  method RecoverFooter(source: Source) returns (r: Result<(nat, Word), ErrorKind>)
    ensures r.Ok? ==> FooterFound(BitsOf(source), r.value.0, r.value.1)
    ensures r.Err? ==> r.error == StreamStructure
                       && forall pad :: FooterAt(BitsOf(source), pad) ==> !PaddingIsZero(BitsOf(source), pad)
  {
    hide BitsOf, Val, ToBits, PaddingIsZero, FooterAt;
    ghost var bits := BitsOf(source);
    var tailLen, tail := ReadTail(source);
    var footer: Option<(nat, Word)> := None;
    var pad: nat := 0;
    while pad < 8 && pad + FOOTER_BITS <= 8 * tailLen
      invariant footer.Some? ==> footer.value.0 < pad && FooterFound(bits, footer.value.0, footer.value.1)
      invariant footer.None? ==> forall q :: 0 <= q < pad ==> !FooterAt(bits, q)
    {
      var tried := TryShift(tail, tailLen, pad, bits);
      forall q | FooterAt(bits, q) && FooterAt(bits, pad) ensures q == pad { FooterIsUnique(bits, q, pad); }
      if tried.Err? {
        return Err(tried.error);
      }
      if tried.value.Some? {
        if footer.Some? {
          return Err(StreamStructure);
        }
        footer := Some((pad, tried.value.value));
      }
      pad := pad + 1;
    }
    if footer.None? {
      forall q ensures !FooterAt(bits, q) {
        if FooterAt(bits, q) { FooterRange(bits, q); }
      }
      return Err(StreamStructure);
    }
    return Ok(footer.value);
  }

  lemma NoPadding(bits: seq<bit>)
    ensures PaddingIsZero(bits, 0)
  {
    assert bits[|bits|..] == [];
  }

  // ---- Block frames ----

  /** `read_block_frame`: six bytes hold the CRC and the flag wherever they are bit-aligned. */
  method ReadBlockFrame(source: Source, offset: nat) returns (crc: Word, randomised: bool)
    requires offset + BLOCK_FRAME_BITS + FOOTER_BITS <= 8 * |source|
    ensures crc == BitsOf(source)[offset + 48..offset + 80]
    ensures randomised <==> BitsOf(source)[offset + 80] != 0
  {
    hide BitsOf, Val, ToBits, ShiftMask;
    ghost var bits := BitsOf(source);
    var crcStart := offset + 48;
    var firstByte := crcStart / 8;
    var window := ReadWord(source[firstByte..firstByte + 6]);
    BitsOfSlice(source, firstByte, firstByte + 6);
    var lead := crcStart - firstByte * 8;
    FrameFields(bits[8 * firstByte..8 * (firstByte + 6)], lead);
    SliceOfSlice(bits, 8 * firstByte, 8 * (firstByte + 6), lead, lead + 32);
    crc := ToBits(ShiftMask(window, 48 - 32 - lead, 32), 32);
    randomised := ShiftMask(window, 48 - 33 - lead, 1) != 0;
  }

  /** The CRC and the flag inside a 48-bit window that starts `lead` bits before them. */
  lemma FrameFields(w: seq<bit>, lead: nat)
    requires |w| == 48 && lead < 8
    ensures ToBits(ShiftMask(Val(w), 16 - lead, 32), 32) == w[lead..lead + 32]
    ensures ShiftMask(Val(w), 15 - lead, 1) == w[lead + 32]
  {
    ShiftMaskReadsField(w, 16 - lead, 32);
    ShiftMaskReadsField(w, 15 - lead, 1);
    BitsOfVal(w[lead..lead + 32]);
    assert w[lead + 32..lead + 33] == [w[lead + 32]];
    SingleBit(w[lead + 32]);
  }

  lemma SingleBit(b: bit)
    ensures Val([b]) == b
  {
    assert [b][..0] == [];
  }

  // ---- parse_stream_prefix ----

  /** Magic, version, level digit, a block magic right after them and a zero flag in that block. */
  predicate PrefixAgrees(source: Source, level: nat) {
    && |source| >= 15
    && source[..3] == [0x42, 0x5A, 0x68]
    && 1 <= level <= 9 && source[3] == 0x30 + level
    && MagicAt(BitsOf(source), 32, BLOCK_MAGIC)
    && BitsOf(source)[112] == 0
  }

  predicate HeaderOk(source: Source) {
    |source| >= 14 && source[..3] == [0x42, 0x5A, 0x68] && 0x31 <= source[3] <= 0x39
  }

  method ParseStreamPrefix(source: Source) returns (r: Result<nat, ErrorKind>)
    ensures r.Ok? ==> PrefixAgrees(source, r.value)
    ensures r.Err? ==> forall level :: !PrefixAgrees(source, level)
    ensures |source| < 14 ==> r == Err(Truncated)
    ensures |source| >= 14 && source[..2] != [0x42, 0x5A] ==> r == Err(Magic)
    ensures |source| >= 14 && source[..3] == [0x42, 0x5A, 0x30] ==> r == Err(VersionUnsupported)
    ensures |source| >= 14 && source[..2] == [0x42, 0x5A] && source[2] !in {0x30, 0x68} ==> r == Err(Magic)
    ensures |source| >= 14 && source[..3] == [0x42, 0x5A, 0x68] && !HeaderOk(source) ==> r == Err(LevelBounds)
    ensures HeaderOk(source) && MagicAt(BitsOf(source), 32, EOS_MAGIC) ==> r == Err(EmptyStream)
    ensures HeaderOk(source) && !MagicAt(BitsOf(source), 32, EOS_MAGIC) && !MagicAt(BitsOf(source), 32, BLOCK_MAGIC) ==>
              r == Err(StreamStructure)
    ensures HeaderOk(source) && |source| == 14 && MagicAt(BitsOf(source), 32, BLOCK_MAGIC) ==> r == Err(Truncated)
    ensures HeaderOk(source) && |source| >= 15 && MagicAt(BitsOf(source), 32, BLOCK_MAGIC)
            && BitsOf(source)[112] != 0 ==>
              r == Err(RandomizedBlock)
  {
    hide BitsOf, Val;
    if |source| < 14 {
      return Err(Truncated);
    }
    if source[..2] != [0x42, 0x5A] {
      return Err(Magic);
    }
    if source[2] == 0x30 {
      return Err(VersionUnsupported);
    }
    if source[2] != 0x68 {
      return Err(Magic);
    }
    if source[3] < 0x30 || source[3] > 0x39 || source[3] == 0x30 {
      return Err(LevelBounds);
    }
    var level := source[3] - 0x30;
    var firstMagic := ReadWord(source[4..10]);
    BitsOfSlice(source, 4, 10);
    if firstMagic == EOS_MAGIC {
      return Err(EmptyStream);
    }
    if firstMagic != BLOCK_MAGIC {
      return Err(StreamStructure);
    }
    if |source| < 15 {
      return Err(Truncated);
    }
    HighBit(source, 14);
    if source[14] >= 0x80 {
      return Err(RandomizedBlock);
    }
    return Ok(level);
  }

  lemma HighBit(s: seq<byte>, i: nat)
    requires i < |s|
    ensures BitsOf(s)[8 * i] == if s[i] >= 0x80 then 1 else 0
  {
    hide BitsOf, ToBits, Val;
    BitsOfByte(s, i);
    var w := ToBits(s[i], 8);
    ByteVal(s[i]);
    LeadingBit(w);
    assert BitsOf(s)[8 * i] == BitsOf(s)[8 * i..8 * (i + 1)][0];
  }

  lemma LeadingBit(w: seq<bit>)
    requires |w| == 8
    ensures w[0] == 1 <==> Val(w) >= 0x80
  {
    var front, back := w[..1], w[1..];
    assert w == front + back;
    ValAppend(front, back);
    ValBound(back);
    assert Pow2(7) == 0x80;
    assert front == [w[0]];
    SingleBit(w[0]);
  }

  // ---- parse_container ----

  /** What `parse_container` asks for beyond the container itself: blocks begin right after the header. */
  predicate ParserExtras(c: Container, maxMetadataBytes: nat) {
    c.blockOffsets != [] && c.blockOffsets[0] == 32 && MetadataBytes(c) <= maxMetadataBytes
  }

  lemma {:induction false} FoldSplit(crcs: seq<Word>, crc: Word)
    ensures FoldAll(crcs + [crc]) == FoldCombinedCrc(FoldAll(crcs), crc)
  {
    assert (crcs + [crc])[..|crcs|] == crcs;
  }

  /** The frame loop of `parse_container`. */
  method ReadFrames(source: Source, offsets: seq<nat>, footer: nat)
    returns (r: Result<seq<Word>, ErrorKind>, fold: Word)
    requires footer + FOOTER_BITS <= 8 * |source|
    ensures r.Ok? ==> |r.value| == |offsets| && fold == FoldAll(r.value)
    ensures r.Ok? ==> forall i :: 0 <= i < |offsets| ==> FrameAgrees(BitsOf(source), footer, offsets[i], r.value[i])
    ensures r.Err? ==> exists i :: 0 <= i < |offsets| && FirstBadFrame(BitsOf(source), footer, offsets, i)
                                   && r.error == FrameError(footer, offsets[i])
  {
    hide BitsOf;
    var crcs: seq<Word> := [];
    fold := Zero();
    for k := 0 to |offsets|
      invariant |crcs| == k && fold == FoldAll(crcs)
      invariant forall i :: 0 <= i < k ==> FrameAgrees(BitsOf(source), footer, offsets[i], crcs[i])
    {
      if offsets[k] + BLOCK_FRAME_BITS > footer {
        return Err(StreamStructure), fold;
      }
      var crc, randomised := ReadBlockFrame(source, offsets[k]);
      if randomised {
        return Err(RandomizedBlock), fold;
      }
      FoldSplit(crcs, crc);
      fold := FoldCombinedCrc(fold, crc);
      crcs := crcs + [crc];
    }
    return Ok(crcs), fold;
  }

  /** What is wrong with a frame that is not there: it runs into the footer, or its flag is set. */
  function FrameError(footer: nat, offset: nat): ErrorKind {
    if offset + BLOCK_FRAME_BITS > footer then StreamStructure else RandomizedBlock
  }

  predicate FirstBadFrame(bits: seq<bit>, footer: nat, offsets: seq<nat>, i: nat) {
    && i < |offsets| && !FrameExists(bits, footer, offsets[i])
    && forall k :: 0 <= k < i ==> FrameExists(bits, footer, offsets[k])
  }

  /** A frame whose CRC is whatever the bits say. */
  predicate FrameExists(bits: seq<bit>, footer: nat, offset: nat) {
    offset + BLOCK_FRAME_BITS <= footer <= |bits| && bits[offset + 80] == 0
  }

  predicate FooterGood(bits: seq<bit>, pad: nat) {
    FooterAt(bits, pad) && PaddingIsZero(bits, pad)
  }

  /** The block starts of a stream whose footer leaves `pad` bits. */
  function Starts(bits: seq<bit>, pad: nat): seq<nat>
    requires FooterGood(bits, pad)
  {
    BlockStarts(bits, |bits| - pad - FOOTER_BITS, |bits|)
  }

  predicate StartsWell(starts: seq<nat>) {
    1 <= |starts| <= MAX_BLOCKS && starts[0] == 32
  }

  predicate RandomisedFirst(bits: seq<bit>, footer: nat, starts: seq<nat>, i: nat) {
    FirstBadFrame(bits, footer, starts, i) && starts[i] + BLOCK_FRAME_BITS <= footer
  }

  /** Which error a stream with a good footer gets: too many blocks, then the metadata cap, then the first bad frame. */
  ghost predicate FaultAgrees(bits: seq<bit>, pad: nat, maxMetadataBytes: nat, error: ErrorKind)
    requires FooterGood(bits, pad)
  {
    var starts, footer := Starts(bits, pad), |bits| - pad - FOOTER_BITS;
    var overCap := FramesBytes(|starts|, pad) > maxMetadataBytes;
    && (error == BlockBounds <==> |starts| > MAX_BLOCKS)
    && (error == HeaderLimit <==> StartsWell(starts) && overCap)
    && (error == RandomizedBlock <==>
        StartsWell(starts) && !overCap && exists i: nat :: RandomisedFirst(bits, footer, starts, i))
    && error in {StreamStructure, BlockBounds, HeaderLimit, RandomizedBlock}
  }

  lemma FirstBadIsUnique(bits: seq<bit>, footer: nat, starts: seq<nat>, i: nat, j: nat)
    requires FirstBadFrame(bits, footer, starts, i) && FirstBadFrame(bits, footer, starts, j)
    ensures i == j
  {
  }

  /** Everything after footer recovery: scan, metadata cap, frames and fold. */
  method ParseBlocks(source: Source, paddingBits: nat, combinedCrc: Word, maxMetadataBytes: u64)
    returns (r: Result<Container, ErrorKind>)
    requires FooterFound(BitsOf(source), paddingBits, combinedCrc)
    ensures r.Ok? ==> ContainerAgrees(BitsOf(source), r.value) && ParserExtras(r.value, maxMetadataBytes)
    ensures r.Err? ==> forall c :: ContainerAgrees(BitsOf(source), c) ==> !ParserExtras(c, maxMetadataBytes)
    ensures r.Err? ==> FaultAgrees(BitsOf(source), paddingBits, maxMetadataBytes, r.error)
  {
    hide BitsOf, FooterAt, PaddingIsZero, BlockStarts, FoldAll, FrameAgrees, FrameExists;
    ghost var bits := BitsOf(source);
    FooterRange(bits, paddingBits);
    forall c | ContainerAgrees(bits, c) ensures c.paddingBits == paddingBits {
      FooterIsUnique(bits, c.paddingBits, paddingBits);
    }
    var payloadBits := 8 * |source| - paddingBits;
    var footerStart := payloadBits - FOOTER_BITS;
    var scanned := ScanBlockMagics(source, footerStart, MAX_BLOCKS);
    if scanned.None? {
      return Err(BlockBounds);
    }
    var offsets := scanned.value;
    if offsets == [] || offsets[0] != 32 {
      return Err(StreamStructure);
    }
    if FramesBytes(|offsets|, paddingBits) > maxMetadataBytes {
      return Err(HeaderLimit);
    }
    var frames, fold := ReadFrames(source, offsets, footerStart);
    forall c | ContainerAgrees(bits, c) ensures frames.Ok? && frames.value == c.blockCrcs {
      FramesAreUnique(bits, footerStart, offsets, c.blockCrcs, if frames.Ok? then frames.value else []);
    }
    if frames.Err? {
      BadFrameIsTold(bits, footerStart, offsets, frames.error);
      return Err(frames.error);
    }
    if fold != combinedCrc {
      FramesAreUnique(bits, footerStart, offsets, frames.value, frames.value);
      return Err(StreamStructure);
    }
    return Ok(Container(payloadBits, paddingBits, offsets, frames.value, combinedCrc));
  }

  lemma BadFrameIsTold(bits: seq<bit>, footer: nat, starts: seq<nat>, error: ErrorKind)
    requires exists i :: 0 <= i < |starts| && FirstBadFrame(bits, footer, starts, i)
                         && error == FrameError(footer, starts[i])
    ensures error == RandomizedBlock <==> exists i: nat :: RandomisedFirst(bits, footer, starts, i)
    ensures error in {StreamStructure, RandomizedBlock}
  {
    hide FrameExists;
    var bad: nat :| bad < |starts| && FirstBadFrame(bits, footer, starts, bad)
                         && error == FrameError(footer, starts[bad]);
    if error == RandomizedBlock { assert RandomisedFirst(bits, footer, starts, bad); }
    if i: nat :| RandomisedFirst(bits, footer, starts, i) { FirstBadIsUnique(bits, footer, starts, i, bad); }
  }

  /** `parse_container`: the container the bits hold, or the first demand that fails. */
  method ParseContainer(source: Source, maxMetadataBytes: u64) returns (r: Result<Container, ErrorKind>)
    ensures r.Ok? ==> ContainerAgrees(BitsOf(source), r.value) && ParserExtras(r.value, maxMetadataBytes)
    ensures r.Err? ==> forall c :: ContainerAgrees(BitsOf(source), c) ==> !ParserExtras(c, maxMetadataBytes)
    ensures r.Err? && (forall pad :: !FooterGood(BitsOf(source), pad)) ==> r.error == StreamStructure
    ensures r.Err? ==>
              forall pad :: FooterGood(BitsOf(source), pad) ==>
                              FaultAgrees(BitsOf(source), pad, maxMetadataBytes, r.error)
  {
    hide BitsOf, FooterAt, PaddingIsZero, BlockStarts, FoldAll, FrameAgrees, FaultAgrees;
    ghost var bits := BitsOf(source);
    var footer := RecoverFooter(source);
    if footer.Err? {
      return Err(footer.error);
    }
    var (paddingBits, combinedCrc) := footer.value;
    assert FooterGood(bits, paddingBits);
    forall pad | FooterGood(bits, pad) ensures pad == paddingBits {
      FooterIsUnique(bits, pad, paddingBits);
    }
    r := ParseBlocks(source, paddingBits, combinedCrc, maxMetadataBytes);
  }

  /** The bits determine the CRC of every block. */
  lemma FramesAreUnique(bits: seq<bit>, footer: nat, offsets: seq<nat>, a: seq<Word>, b: seq<Word>)
    requires |a| == |offsets| && forall i :: 0 <= i < |a| ==> FrameAgrees(bits, footer, offsets[i], a[i])
    ensures forall i :: 0 <= i < |offsets| ==> FrameExists(bits, footer, offsets[i])
    ensures |b| == |offsets| && (forall i :: 0 <= i < |b| ==> FrameAgrees(bits, footer, offsets[i], b[i])) ==> a == b
  {
    assert forall i :: 0 <= i < |a| ==> FrameAgrees(bits, footer, offsets[i], a[i]);
  }

  // ---- audit_bzip2_wrapper_covering ----

  datatype Evidence = Evidence(
    header: ByteRange,
    level: nat,
    container: Container,
    derivedOutputSha256: seq<byte>)

  predicate LowercaseHex64(s: seq<byte>) {
    |s| == 64 && forall i :: 0 <= i < |s| ==> 0x30 <= s[i] <= 0x39 || 0x61 <= s[i] <= 0x66
  }

  predicate AuditAccepts(source: Source, e: Evidence) {
    && e.header == ByteRange(0, 4)
    && 1 <= e.level <= 9
    && |source| >= 4 && source[..3] == [0x42, 0x5A, 0x68] && source[3] == 0x30 + e.level
    && ContainerAgrees(BitsOf(source), e.container)
    && LowercaseHex64(e.derivedOutputSha256)
  }

  /** The shift loop of the audit counts matches; there is never more than one. */
  method CountFooters(tail: nat, tailLen: nat, ghost bits: seq<bit>) returns (matches: nat)
    requires 8 * tailLen <= |bits| && tail == Val(bits[|bits| - 8 * tailLen..])
    requires tailLen == 16 || 8 * tailLen == |bits|
    ensures matches <= 1
    ensures matches == 0 ==> forall q :: !FooterAt(bits, q)
    ensures matches == 1 ==> exists q :: FooterAt(bits, q)
  {
    hide Val, FooterAt, ToBits, PaddingIsZero;
    matches := 0;
    ghost var last: nat := 0;
    var shift: nat := 0;
    while shift < 8 && shift + FOOTER_BITS <= 8 * tailLen
      invariant shift <= 8 && matches <= 1
      invariant matches == 1 ==> last < shift && FooterAt(bits, last)
      invariant matches == 0 ==> forall q :: 0 <= q < shift ==> !FooterAt(bits, q)
    {
      TailAtShift(bits, 8 * tailLen, shift);
      if ShiftMask(tail, shift + 32, 48) == EOS_MAGIC {
        if matches == 1 { FooterIsUnique(bits, last, shift); }
        matches, last := matches + 1, shift;
      }
      shift := shift + 1;
    }
    if matches == 0 {
      forall q ensures !FooterAt(bits, q) {
        if FooterAt(bits, q) { FooterRange(bits, q); }
      }
    }
  }

  /** On a ten-byte source a nonzero shift reads fewer than 48 bits, which cannot spell the magic again. */
  lemma ShortTailHasOnlyShiftZero(bits: seq<bit>, pad: nat)
    requires |bits| == FOOTER_BITS && FooterAt(bits, 0) && 1 <= pad < 8
    ensures ShiftMask(Val(bits), pad + 32, 48) != EOS_MAGIC
  {
    hide Val, Pow2, ShiftMask;
    var e := bits[..48];
    assert bits[0..48] == e && e[..48 - pad] == bits[..48 - pad];
    PrefixValue(e, 48 - pad);
    ShiftWhole(bits, pad + 32, 48);
  }

  lemma ShortTailIsTenBytes(bits: seq<bit>, tailLen: nat, pad: nat)
    requires exists q :: FooterAt(bits, q)
    requires 8 * tailLen <= |bits| && (tailLen == 16 || 8 * tailLen == |bits|)
    requires pad < 8 && 8 * tailLen < pad + FOOTER_BITS
    ensures |bits| == FOOTER_BITS && FooterAt(bits, 0) && 1 <= pad && !FooterAt(bits, pad)
    ensures bits[|bits| - 8 * tailLen..] == bits
  {
    hide MagicAt;
    var q :| FooterAt(bits, q);
    FooterRange(bits, q);
    assert q == 0;
  }

  lemma {:induction false} PrefixValue(e: seq<bit>, k: nat)
    requires k < |e|
    ensures Val(e[..k]) < Val(e) || Val(e[..k]) == Val(e) == 0
  {
    var front := e[..|e| - 1];
    assert front[..k] == e[..k];
    if k < |front| {
      PrefixValue(front, k);
    } else {
      assert front[..k] == front;
    }
  }

  /** Shifting right drops the low bits; a mask wider than what is left changes nothing. */
  lemma ShiftWhole(w: seq<bit>, shift: nat, width: nat)
    requires shift <= |w| <= shift + width
    ensures ShiftMask(Val(w), shift, width) == Val(w[..|w| - shift])
  {
    hide Val, Pow2;
    var front, low := w[..|w| - shift], w[|w| - shift..];
    assert w == front + low;
    ValAppend(front, low);
    ValBound(low);
    ValBound(front);
    DivModOfSum(Val(front), Pow2(shift), Val(low));
    Pow2Monotone(|front|, width);
    SmallModulus(Val(front), Pow2(width));
  }

  lemma SmallModulus(a: nat, m: nat)
    requires a < m
    ensures a % m == a
  {
  }

  /** The footer half of the audit: a unique match, then the recorded shift, CRC and zero padding. */
  method AuditFooter(source: Source, pad: nat, combinedCrc: Word) returns (ok: bool)
    requires pad < 8
    ensures ok <==> FooterFound(BitsOf(source), pad, combinedCrc)
  {
    hide BitsOf, Val, ToBits, PaddingIsZero, FooterAt;
    ghost var bits := BitsOf(source);
    var tailLen, tail := ReadTail(source);
    var matches := CountFooters(tail, tailLen, bits);
    if matches != 1 {
      return false;
    }
    if pad + FOOTER_BITS <= 8 * tailLen {
      TailAtShift(bits, 8 * tailLen, pad);
    } else {
      ShortTailIsTenBytes(bits, tailLen, pad);
      ShortTailHasOnlyShiftZero(bits, pad);
    }
    if ShiftMask(tail, pad + 32, 48) != EOS_MAGIC {
      return false;
    }
    if ToBits(ShiftMask(tail, pad, 32), 32) != combinedCrc {
      return false;
    }
    NoPadding(bits);
    return !(pad > 0 && ShiftMask(tail, 0, pad) != 0);
  }

  /** The frame loop of the audit. */
  method AuditFrames(source: Source, offsets: seq<nat>, crcs: seq<Word>, footer: nat) returns (ok: bool, fold: Word)
    requires footer + FOOTER_BITS <= 8 * |source| && |crcs| == |offsets|
    ensures ok <==> forall i :: 0 <= i < |crcs| ==> FrameAgrees(BitsOf(source), footer, offsets[i], crcs[i])
    ensures ok ==> fold == FoldAll(crcs)
  {
    hide BitsOf;
    fold := Zero();
    for k := 0 to |crcs|
      invariant fold == FoldAll(crcs[..k])
      invariant forall i :: 0 <= i < k ==> FrameAgrees(BitsOf(source), footer, offsets[i], crcs[i])
    {
      if offsets[k] + BLOCK_FRAME_BITS > footer {
        return false, fold;
      }
      var crc, randomised := ReadBlockFrame(source, offsets[k]);
      if crc != crcs[k] || randomised {
        return false, fold;
      }
      FoldSplit(crcs[..k], crc);
      assert crcs[..k + 1] == crcs[..k] + [crc];
      fold := FoldCombinedCrc(fold, crc);
    }
    assert crcs[..|crcs|] == crcs;
    ok := true;
  }

  method AuditWrapperCovering(source: Source, e: Evidence) returns (ok: bool)
    ensures ok <==> AuditAccepts(source, e)
  {
    hide BitsOf, FooterAt, PaddingIsZero, BlockStarts, FoldAll, FrameAgrees;
    ghost var bits := BitsOf(source);
    var c := e.container;
    if e.header != ByteRange(0, 4) || e.level < 1 || e.level > 9 {
      return false;
    }
    if ContainerAgrees(bits, c) { FooterRange(bits, c.paddingBits); }
    if c.paddingBits > 7 || c.payloadBits + c.paddingBits != 8 * |source| {
      return false;
    }
    var blockCount := |c.blockOffsets|;
    if blockCount == 0 || blockCount > MAX_BLOCKS || blockCount != |c.blockCrcs| {
      return false;
    }
    if |source| < 4 || source[..3] != [0x42, 0x5A, 0x68] || source[3] != 0x30 + e.level {
      return false;
    }
    var footerOk := AuditFooter(source, c.paddingBits, c.combinedCrc);
    if !footerOk {
      return false;
    }
    FooterRange(bits, c.paddingBits);
    var footerStart := c.payloadBits - FOOTER_BITS;
    var scanned := ScanBlockMagics(source, footerStart, blockCount);
    if scanned.None? || scanned.value != c.blockOffsets {
      return false;
    }
    var framesOk, fold := AuditFrames(source, c.blockOffsets, c.blockCrcs, footerStart);
    if !framesOk || fold != c.combinedCrc {
      return false;
    }
    return |e.derivedOutputSha256| == 64 && LowercaseHex64(e.derivedOutputSha256);
  }

  // ---- The two replays agree ----

  /** At most one container description agrees with a bit sequence. */
  lemma ContainerIsUnique(bits: seq<bit>, c: Container, d: Container)
    requires ContainerAgrees(bits, c) && ContainerAgrees(bits, d)
    ensures c == d
  {
    hide FooterAt, PaddingIsZero, BlockStarts, FoldAll, FrameAgrees;
    FooterRange(bits, c.paddingBits);
    FooterIsUnique(bits, c.paddingBits, d.paddingBits);
    FramesAreUnique(bits, c.payloadBits - FOOTER_BITS, c.blockOffsets, c.blockCrcs, d.blockCrcs);
  }

  /** For any source, at most one level, padding, offset list, CRC list and combined CRC pass the audit. */
  lemma AuditedEvidenceIsUnique(source: Source, d: Evidence, e: Evidence)
    requires AuditAccepts(source, d) && AuditAccepts(source, e)
    ensures d.level == e.level && d.container == e.container
  {
    ContainerIsUnique(BitsOf(source), d.container, e.container);
  }

  /**
   What the decoder's prefix parse and container parse accept is exactly what the audit accepts, except that
   only the parser insists that the first block follows the header and that the metadata cap holds.
   */
  lemma ReplaysAgree(source: Source, e: Evidence, maxMetadataBytes: u64)
    requires e.header == ByteRange(0, 4) && LowercaseHex64(e.derivedOutputSha256)
    ensures PrefixAgrees(source, e.level) && ContainerAgrees(BitsOf(source), e.container)
            && ParserExtras(e.container, maxMetadataBytes)
       <==> AuditAccepts(source, e) && ParserExtras(e.container, maxMetadataBytes)
  {
    hide BitsOf, FooterAt, PaddingIsZero, BlockStarts, FoldAll;
    var bits, c := BitsOf(source), e.container;
    if AuditAccepts(source, e) && ParserExtras(c, maxMetadataBytes) {
      FooterRange(bits, c.paddingBits);
      BlockStartsAreExact(bits, c.payloadBits - FOOTER_BITS, |bits|);
      assert c.blockOffsets[0] in BlockStarts(bits, c.payloadBits - FOOTER_BITS, |bits|);
      assert FrameAgrees(bits, c.payloadBits - FOOTER_BITS, c.blockOffsets[0], c.blockCrcs[0]);
    }
  }

  // ---- The combined CRC in closed form ----

  /** XOR of every CRC rotated left by its distance from the end of the list, modulo 32. */
  function XorOfRotations(crcs: seq<Word>): Word {
    if crcs == [] then Zero()
    else Xor(RotateLeft(crcs[0], (|crcs| - 1) % 32), XorOfRotations(crcs[1..]))
  }

  lemma RotateXor(a: Word, b: Word, k: nat)
    requires k <= 32
    ensures RotateLeft(Xor(a, b), k) == Xor(RotateLeft(a, k), RotateLeft(b, k))
  {
  }

  lemma RotateOnce(w: Word, k: nat)
    ensures RotateLeft(RotateLeft(w, k % 32), 1) == RotateLeft(w, (k + 1) % 32)
  {
    var j := k % 32;
    if j == 31 {
      assert (k + 1) % 32 == 0;
      assert RotateLeft(w, 0) == w;
    } else {
      assert (k + 1) % 32 == j + 1;
    }
  }

  lemma RotateZero(k: nat)
    requires k <= 32
    ensures RotateLeft(Zero(), k) == Zero()
  {
  }

  /** Appending one CRC rotates everything before it by one more. */
  lemma {:induction false} RotationsAppend(crcs: seq<Word>, crc: Word)
    ensures XorOfRotations(crcs + [crc]) == Xor(RotateLeft(XorOfRotations(crcs), 1), crc)
  {
    hide Xor, RotateLeft;
    if crcs == [] {
      RotateZero(1);
      RotateNone(crc);
      XorLaws(crc, Zero(), crc);
      assert ([] + [crc])[1..] == [];
    } else {
      var first, rest := RotateLeft(crcs[0], (|crcs| - 1) % 32), XorOfRotations(crcs[1..]);
      RotationsAppend(crcs[1..], crc);
      assert (crcs + [crc])[1..] == crcs[1..] + [crc];
      RotateOnce(crcs[0], |crcs| - 1);
      RotateXor(first, rest, 1);
      XorLaws(RotateLeft(first, 1), RotateLeft(rest, 1), crc);
    }
  }

  lemma RotateNone(w: Word)
    ensures RotateLeft(w, 0) == w
  {
  }

  /** The running fold equals the closed form, for every list of block CRCs. */
  lemma {:induction false} FoldIsXorOfRotations(crcs: seq<Word>)
    ensures FoldAll(crcs) == XorOfRotations(crcs)
  {
    if crcs != [] {
      var front, last := crcs[..|crcs| - 1], crcs[|crcs| - 1];
      FoldIsXorOfRotations(front);
      RotationsAppend(front, last);
      assert crcs == front + [last];
    }
  }

  lemma XorCancels(a: Word, b: Word, c: Word)
    requires Xor(a, c) == Xor(b, c) || Xor(c, a) == Xor(c, b)
    ensures a == b
  {
    hide Xor;
    XorLaws(a, c, c);
    XorLaws(b, c, c);
    XorLaws(c, a, a);
    XorLaws(c, b, b);
  }

  lemma RotateInjective(a: Word, b: Word, k: nat)
    requires k <= 32 && RotateLeft(a, k) == RotateLeft(b, k)
    ensures a == b
  {
    assert RotateLeft(a, k)[..32 - k] == a[k..] && RotateLeft(b, k)[..32 - k] == b[k..];
    assert RotateLeft(a, k)[32 - k..] == a[..k] && RotateLeft(b, k)[32 - k..] == b[..k];
    assert a == a[..k] + a[k..] && b == b[..k] + b[k..];
  }

  lemma {:induction false} RotationsDetectChange(crcs: seq<Word>, i: nat, crc: Word)
    requires i < |crcs| && XorOfRotations(crcs[i := crc]) == XorOfRotations(crcs)
    ensures crc == crcs[i]
  {
    hide Xor, RotateLeft;
    var changed := crcs[i := crc];
    var k := (|crcs| - 1) % 32;
    if i == 0 {
      assert changed[1..] == crcs[1..];
      XorCancels(RotateLeft(crc, k), RotateLeft(crcs[0], k), XorOfRotations(crcs[1..]));
      RotateInjective(crc, crcs[0], k);
    } else {
      assert changed[1..] == crcs[1..][i - 1 := crc];
      XorCancels(XorOfRotations(changed[1..]), XorOfRotations(crcs[1..]), RotateLeft(crcs[0], k));
      RotationsDetectChange(crcs[1..], i - 1, crc);
    }
  }

  /** Replacing any one block CRC by a different value changes the combined CRC. */
  lemma SingleCrcChangeIsDetected(crcs: seq<Word>, i: nat, crc: Word)
    requires i < |crcs| && crc != crcs[i]
    ensures FoldAll(crcs[i := crc]) != FoldAll(crcs)
  {
    FoldIsXorOfRotations(crcs);
    FoldIsXorOfRotations(crcs[i := crc]);
    if XorOfRotations(crcs[i := crc]) == XorOfRotations(crcs) {
      RotationsDetectChange(crcs, i, crc);
    }
  }
}
