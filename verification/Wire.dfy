/** The worker wire format's fields: little-endian numbers and the bounded read cursor. */
module Wire {
  import opened Prelude

  type Digest = s: seq<byte> | |s| == 32 witness ZERO_DIGEST
  type OperationId = s: seq<byte> | |s| == 16 witness ZERO_ID

  const ZERO_ID: seq<byte> := [0, 0, 0, 0, 0, 0, 0, 0, 0, 0, 0, 0, 0, 0, 0, 0]
  const ZERO_DIGEST: seq<byte> := ZERO_ID + ZERO_ID

  datatype ErrorKind =
    | FrameTooLarge | Truncated | TrailingBytes | InvalidMagic | UnsupportedVersion | UnexpectedFrameKind
    | ReservedNonZero | LimitExceeded | CountInconsistent | InvalidEnum | CapabilityMismatch | CorrelationMismatch
    | RequestMismatch | InvalidUtf8 | InvalidString | InvalidSemanticState | NonCanonicalOrder | IntegerOverflow

  /** A rejection: its category and an absolute byte offset. */
  datatype ProtocolError = ProtocolError(kind: ErrorKind, offset: nat)

  function Le16(n: u16): seq<byte> {
    [n % 0x100, n / 0x100]
  }

  function Le32(n: u32): seq<byte> {
    Le16(n % 0x1_0000) + Le16(n / 0x1_0000)
  }

  function Le64(n: u64): seq<byte> {
    Le32(n % 0x1_0000_0000) + Le32(n / 0x1_0000_0000)
  }

  lemma Le16Occurs(s: seq<byte>, at: nat, n: u16)
    ensures Occurs(s, at, Le16(n)) <==> at + 2 <= |s| && LeU16(s, at) == n
  {
    if at + 2 <= |s| {
      assert s[at..at + 2] == [s[at], s[at + 1]];
    }
  }

  lemma Le32Occurs(s: seq<byte>, at: nat, n: u32)
    ensures Occurs(s, at, Le32(n)) <==> at + 4 <= |s| && LeU32(s, at) == n
  {
    OccursAppend(s, at, Le16(n % 0x1_0000), Le16(n / 0x1_0000));
    Le16Occurs(s, at, n % 0x1_0000);
    Le16Occurs(s, at + 2, n / 0x1_0000);
  }

  lemma Le64Occurs(s: seq<byte>, at: nat, n: u64)
    ensures Occurs(s, at, Le64(n)) <==> at + 8 <= |s| && LeU64(s, at) == n
  {
    OccursAppend(s, at, Le32(n % 0x1_0000_0000), Le32(n / 0x1_0000_0000));
    Le32Occurs(s, at, n % 0x1_0000_0000);
    Le32Occurs(s, at + 4, n / 0x1_0000_0000);
  }

  lemma ByteOccurs(s: seq<byte>, at: nat, b: byte)
    ensures Occurs(s, at, [b]) <==> at < |s| && s[at] == b
  {
  }

  /** Two strings of one length at one place are the same. */
  lemma OccursDetermines(s: seq<byte>, at: nat, a: seq<byte>, b: seq<byte>)
    requires |a| == |b| && Occurs(s, at, a) && Occurs(s, at, b)
    ensures a == b
  {
  }

  /** `Cursor`: reads fields of a payload from left to right and never past its end. */
  class Cursor {
    const input: seq<byte>
    const base: nat
    var position: nat

    ghost predicate Valid()
      reads this
    {
      position <= |input|
    }

    constructor (input: seq<byte>, base: nat)
      ensures Valid() && this.input == input && this.base == base && position == 0
    {
      this.input, this.base, position := input, base, 0;
    }

    function Absolute(): nat
      reads this
    {
      base + position
    }

    function Remaining(): nat
      requires Valid()
      reads this
    {
      |input| - position
    }

    function Error(kind: ErrorKind): ProtocolError
      reads this
    {
      ProtocolError(kind, Absolute())
    }

    /** The next `len` bytes, or `Truncated` with the cursor left where it was. */
    method Bytes(len: nat) returns (r: Result<seq<byte>, ProtocolError>)
      requires Valid()
      modifies this
      ensures Valid()
      ensures r.Ok? <==> old(position) + len <= |input|
      ensures r.Ok? ==> position == old(position) + len && r.value == input[old(position)..position]
      ensures r.Err? ==> position == old(position) && r.error == ProtocolError(Truncated, base + position)
    {
      if len > |input| - position {
        return Err(Error(Truncated));
      }
      r := Ok(input[position..position + len]);
      position := position + len;
    }

    method U8() returns (r: Result<byte, ProtocolError>)
      requires Valid()
      modifies this
      ensures Valid()
      ensures r.Ok? <==> old(position) + 1 <= |input|
      ensures r.Ok? ==> r.value == input[old(position)] && position == old(position) + 1
      ensures r.Err? ==> r.error == ProtocolError(Truncated, base + old(position))
    {
      var field :- Bytes(1);
      return Ok(field[0]);
    }

    method U16() returns (r: Result<u16, ProtocolError>)
      requires Valid()
      modifies this
      ensures Valid()
      ensures r.Ok? <==> old(position) + 2 <= |input|
      ensures r.Ok? ==> r.value == LeU16(input, old(position)) && position == old(position) + 2
      ensures r.Err? ==> r.error == ProtocolError(Truncated, base + old(position))
    {
      var field :- Bytes(2);
      return Ok(LeU16(field, 0));
    }

    method U32() returns (r: Result<u32, ProtocolError>)
      requires Valid()
      modifies this
      ensures Valid()
      ensures r.Ok? <==> old(position) + 4 <= |input|
      ensures r.Ok? ==> r.value == LeU32(input, old(position)) && position == old(position) + 4
      ensures r.Err? ==> r.error == ProtocolError(Truncated, base + old(position))
    {
      var field :- Bytes(4);
      return Ok(LeU32(field, 0));
    }

    method U64() returns (r: Result<u64, ProtocolError>)
      requires Valid()
      modifies this
      ensures Valid()
      ensures r.Ok? <==> old(position) + 8 <= |input|
      ensures r.Ok? ==> r.value == LeU64(input, old(position)) && position == old(position) + 8
      ensures r.Err? ==> r.error == ProtocolError(Truncated, base + old(position))
    {
      var field :- Bytes(8);
      return Ok(LeU64(field, 0));
    }

    /** `zeroes`: reserved bytes must all be zero. */
    method Zeroes(len: nat) returns (r: Result<(), ProtocolError>)
      requires Valid()
      modifies this
      ensures Valid()
      ensures r.Ok? <==> old(position) + len <= |input| && AllZero(input[old(position)..old(position) + len])
      ensures r.Ok? ==> position == old(position) + len
      ensures r.Err? ==> base <= r.error.offset <= base + |input|
    {
      var field :- Bytes(len);
      for i := 0 to |field|
        invariant forall k :: 0 <= k < i ==> field[k] == 0
      {
        if field[i] != 0 {
          assert input[old(position)..old(position) + len][i] != 0;
          return Err(Error(ReservedNonZero));
        }
      }
      return Ok(());
    }

    /** `finish`: nothing may be left over. */
    method Finish() returns (r: Result<(), ProtocolError>)
      requires Valid()
      ensures r.Ok? <==> position == |input|
      ensures r.Err? ==> r.error == ProtocolError(TrailingBytes, base + position) && r.error.offset <= base + |input|
    {
      if position == |input| {
        return Ok(());
      }
      return Err(Error(TrailingBytes));
    }
  }

  /** The output vector an encoder appends to. */
  class Output {
    var bytes: seq<byte>

    constructor ()
      ensures bytes == []
    {
      bytes := [];
    }

    method Extend(more: seq<byte>)
      modifies this
      ensures bytes == old(bytes) + more
    {
      bytes := bytes + more;
    }

    method Push(b: byte)
      modifies this
      ensures bytes == old(bytes) + [b]
    {
      bytes := bytes + [b];
    }

    method PushU16(n: u16)
      modifies this
      ensures bytes == old(bytes) + Le16(n)
    {
      Extend(Le16(n));
    }

    method PushU32(n: u32)
      modifies this
      ensures bytes == old(bytes) + Le32(n)
    {
      Extend(Le32(n));
    }

    method PushU64(n: u64)
      modifies this
      ensures bytes == old(bytes) + Le64(n)
    {
      Extend(Le64(n));
    }

    /** `encode_header`. */
    method Header(kind: byte, payloadLen: u32)
      requires bytes == []
      modifies this
      ensures forall payload :: |payload| == payloadLen ==> bytes + payload == Frame(kind, payload)
    {
      Extend(FRAME_MAGIC);
      PushU16(PROTOCOL_VERSION);
      Push(kind);
      Push(0);
      PushU32(payloadLen);
      forall payload: seq<byte> | |payload| == payloadLen ensures bytes + payload == Frame(kind, payload) {
        Assoc4(FRAME_MAGIC, Le16(PROTOCOL_VERSION), [kind], [0], Le32(payloadLen) + payload);
        assert bytes + payload == FRAME_MAGIC + Le16(PROTOCOL_VERSION) + [kind] + [0] + (Le32(payloadLen) + payload);
        assert FRAME_MAGIC + Le16(PROTOCOL_VERSION) + [kind] + [0] ==
               FRAME_MAGIC + (Le16(PROTOCOL_VERSION) + [kind] + [0]);
      }
    }
  }

  lemma Assoc4<T>(x: seq<T>, a: seq<T>, b: seq<T>, c: seq<T>, d: seq<T>)
    ensures x + a + b + c + d == x + (a + (b + (c + d)))
  {
    assert x + a + b + c + d == x + a + b + (c + d);
    assert x + a + b + (c + d) == x + a + (b + (c + d));
  }

  lemma OccursAppend4<T>(s: seq<T>, at: nat, a: seq<T>, b: seq<T>, c: seq<T>, d: seq<T>)
    ensures Occurs(s, at, a + (b + (c + d))) <==>
            Occurs(s, at, a) && Occurs(s, at + |a|, b) && Occurs(s, at + |a| + |b|, c)
            && Occurs(s, at + |a| + |b| + |c|, d)
  {
    hide Occurs;
    OccursAppend(s, at, a, b + (c + d));
    OccursAppend(s, at + |a|, b, c + d);
    OccursAppend(s, at + |a| + |b|, c, d);
  }

  // ---- The frame around a payload ----

  const FRAME_KIND_START: byte := 1
  const FRAME_KIND_RESULT: byte := 2
  const FRAME_MAGIC: seq<byte> := [0x53, 0x45, 0x41, 0x4C, 0x52, 0x49, 0x50, 0x43] // "SEALRIPC"
  const PROTOCOL_VERSION: u16 := 1
  const FRAME_HEADER_BYTES: nat := 16
  const MAX_FRAME_BYTES: nat := 4 * 1024 * 1024

  /** A frame: magic, version, kind, a reserved zero and the payload's length, then the payload. */
  function Frame(kind: byte, payload: seq<byte>): seq<byte>
    requires |payload| <= U32_MAX
  {
    FRAME_MAGIC + (Le16(PROTOCOL_VERSION) + ([kind] + ([0] + (Le32(|payload|) + payload))))
  }

  /** What a frame looks like at fixed offsets. */
  lemma FrameLayout(s: seq<byte>, kind: byte, payload: seq<byte>)
    requires |payload| <= U32_MAX
    ensures |Frame(kind, payload)| == FRAME_HEADER_BYTES + |payload|
    ensures Occurs(s, 0, Frame(kind, payload)) <==>
            FRAME_HEADER_BYTES + |payload| <= |s| && s[..8] == FRAME_MAGIC && LeU16(s, 8) == PROTOCOL_VERSION
            && s[10] == kind && s[11] == 0 && LeU32(s, 12) == |payload| && s[16..16 + |payload|] == payload
  {
    assert |Le16(PROTOCOL_VERSION)| == 2 && |Le32(|payload|)| == 4;
    assert Occurs(s, 0, FRAME_MAGIC) <==> 8 <= |s| && s[..8] == FRAME_MAGIC;
    assert Occurs(s, 16, payload) <==> 16 + |payload| <= |s| && s[16..16 + |payload|] == payload;
    hide LeU16, LeU32, Le16, Le32, Occurs;
    var afterReserved := Le32(|payload|) + payload;
    var afterKind := [0] + afterReserved;
    var afterVersion := [kind] + afterKind;
    OccursAppend(s, 0, FRAME_MAGIC, Le16(PROTOCOL_VERSION) + afterVersion);
    OccursAppend(s, 8, Le16(PROTOCOL_VERSION), afterVersion);
    OccursAppend(s, 10, [kind], afterKind);
    OccursAppend(s, 11, [0], afterReserved);
    OccursAppend(s, 12, Le32(|payload|), payload);
    Le16Occurs(s, 8, PROTOCOL_VERSION);
    Le32Occurs(s, 12, |payload|);
    ByteOccurs(s, 10, kind);
    ByteOccurs(s, 11, 0);
  }

  /** No frame is a proper prefix of another, whatever their kinds. */
  lemma NoFrameIsAProperPrefix(kindA: byte, a: seq<byte>, kindB: byte, b: seq<byte>)
    requires |a| <= U32_MAX && |b| <= U32_MAX
    requires Frame(kindA, a) <= Frame(kindB, b)
    ensures kindA == kindB && a == b
  {
    hide LeU16, LeU32, Frame;
    var whole := Frame(kindB, b);
    assert whole == whole[0..|whole|];
    FrameLayout(whole, kindA, a);
    FrameLayout(whole, kindB, b);
  }

  /** The header fields of a complete frame of some kind. */
  predicate Framed(input: seq<byte>, kind: byte) {
    && FRAME_HEADER_BYTES <= |input| <= MAX_FRAME_BYTES
    && input[..8] == FRAME_MAGIC
    && LeU16(input, 8) == PROTOCOL_VERSION
    && input[10] == kind
    && input[11] == 0
    && FRAME_HEADER_BYTES + LeU32(input, 12) == |input|
  }

  lemma FramedIsFrame(input: seq<byte>, kind: byte)
    ensures Framed(input, kind) ==> input == Frame(kind, input[FRAME_HEADER_BYTES..])
    ensures |input| <= MAX_FRAME_BYTES ==>
              forall payload :: |payload| <= U32_MAX && input == Frame(kind, payload) ==>
                Framed(input, kind) && payload == input[FRAME_HEADER_BYTES..]
  {
    hide LeU16, LeU32, Frame;
    assert input == input[0..|input|];
    if Framed(input, kind) {
      FrameLayout(input, kind, input[FRAME_HEADER_BYTES..]);
    }
    if |input| <= MAX_FRAME_BYTES {
      forall payload: seq<byte> | |payload| <= U32_MAX && input == Frame(kind, payload)
        ensures Framed(input, kind) && payload == input[FRAME_HEADER_BYTES..]
      {
        FrameLayout(input, kind, payload);
      }
    }
  }

  /** A frame followed by other bytes. */
  lemma FramedPrefix(input: seq<byte>, kind: byte, n: nat)
    requires FRAME_HEADER_BYTES <= n <= |input| <= MAX_FRAME_BYTES
    requires input[..8] == FRAME_MAGIC && LeU16(input, 8) == PROTOCOL_VERSION && input[10] == kind && input[11] == 0
    requires FRAME_HEADER_BYTES + LeU32(input, 12) == n
    ensures Framed(input[..n], kind)
  {
    assert input[..n][..8] == input[..8];
  }

  /** What keeps an input from being one complete frame of this kind: the first check that fails. */
  function HeaderFault(input: seq<byte>, expectedKind: byte): Option<ProtocolError> {
    if |input| > MAX_FRAME_BYTES then Some(ProtocolError(FrameTooLarge, 0))
    else if |input| < FRAME_HEADER_BYTES then Some(ProtocolError(Truncated, |input|))
    else if input[..8] != FRAME_MAGIC then Some(ProtocolError(InvalidMagic, 0))
    else if LeU16(input, 8) != PROTOCOL_VERSION then Some(ProtocolError(UnsupportedVersion, 8))
    else if input[10] != expectedKind then Some(ProtocolError(UnexpectedFrameKind, 10))
    else if input[11] != 0 then Some(ProtocolError(ReservedNonZero, 11))
    else
      var end := FRAME_HEADER_BYTES + LeU32(input, 12);
      if end > |input| then Some(ProtocolError(Truncated, |input|))
      else if end < |input| then Some(ProtocolError(TrailingBytes, end))
      else None
  }

  /** `decode_header`: the payload of a well-formed frame, or the first check that fails. */
  method DecodeHeader(input: seq<byte>, expectedKind: byte) returns (r: Result<seq<byte>, ProtocolError>)
    ensures r.Ok? <==> Framed(input, expectedKind)
    ensures r.Ok? ==> r.value == input[FRAME_HEADER_BYTES..] && input == Frame(expectedKind, r.value)
    ensures r.Err? ==> r.error.offset <= |input|
    ensures HeaderFault(input, expectedKind) == if r.Err? then Some(r.error) else None
    ensures r.Err? ==> (r.error.kind.FrameTooLarge? <==> |input| > MAX_FRAME_BYTES)
    ensures r.Err? && FRAME_HEADER_BYTES <= |input| <= MAX_FRAME_BYTES ==>
              (r.error.kind.InvalidMagic? <==> input[..8] != FRAME_MAGIC)
    ensures r.Err? && r.error.kind.TrailingBytes? ==> Framed(input[..r.error.offset], expectedKind)
  {
    hide LeU16, LeU32, Frame;
    if |input| > MAX_FRAME_BYTES {
      return Err(ProtocolError(FrameTooLarge, 0));
    }
    if |input| < FRAME_HEADER_BYTES {
      return Err(ProtocolError(Truncated, |input|));
    }
    if input[..8] != FRAME_MAGIC {
      return Err(ProtocolError(InvalidMagic, 0));
    }
    if LeU16(input, 8) != PROTOCOL_VERSION {
      return Err(ProtocolError(UnsupportedVersion, 8));
    }
    if input[10] != expectedKind {
      return Err(ProtocolError(UnexpectedFrameKind, 10));
    }
    if input[11] != 0 {
      return Err(ProtocolError(ReservedNonZero, 11));
    }
    var expectedLen := FRAME_HEADER_BYTES + LeU32(input, 12);
    if expectedLen > |input| {
      return Err(ProtocolError(Truncated, |input|));
    }
    if expectedLen < |input| {
      FramedPrefix(input, expectedKind, expectedLen);
      return Err(ProtocolError(TrailingBytes, expectedLen));
    }
    FramedIsFrame(input, expectedKind);
    return Ok(input[FRAME_HEADER_BYTES..]);
  }
}
