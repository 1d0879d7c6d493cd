/** The start frame: what the supervisor asks of a worker, and its fixed 196-byte payload. */
module StartFrame {
  import opened Prelude
  import opened Wire

  datatype ExecutionMode = Inspect | Materialize
  datatype InterpretationProfile = StrictAsciiV1 | StrictAsciiV2

  datatype ResourceLimits = ResourceLimits(
    maxArchiveBytes: u64,
    maxFiles: u64,
    maxMemberBytes: u64,
    maxTotalBytes: u64,
    maxRatio: Option<u64>,
    maxPathDepth: u32,
    maxMetadataBytes: u64)

  datatype StartRequest = StartRequest(
    operationId: OperationId,
    mode: ExecutionMode,
    interpretationProfile: InterpretationProfile,
    memberSync: bool,
    capabilityCount: u16,
    sourceCapability: u16,
    stageCapability: Option<u16>,
    sourceLen: u64,
    sourceSha256: Digest,
    interpretationProfileSha256: Digest,
    policySha256: Digest,
    limits: ResourceLimits)

  const START_PAYLOAD_BYTES: nat := 196
  const MAX_CAPABILITIES: u16 := 2
  const NO_CAPABILITY_SLOT: u16 := 0xFFFF

  // ---- Which requests are coherent ----

  /** The slots a mode needs: inspect has only the source, materialize a distinct stage as well. */
  predicate SlotsMatchMode(r: StartRequest) {
    match r.mode
    case Inspect => r.capabilityCount == 1 && r.sourceCapability == 0 && r.stageCapability.None?
    case Materialize =>
      && r.capabilityCount == 2 && r.stageCapability.Some?
      && {r.sourceCapability, r.stageCapability.value} == {0, 1}
  }

  predicate ValidStart(r: StartRequest) {
    r.operationId != ZERO_ID && SlotsMatchMode(r) && r.sourceLen <= r.limits.maxArchiveBytes
  }

  /** `validate_start`. */
  method ValidateStart(r: StartRequest, receivedCapabilities: u16) returns (ok: Result<(), ProtocolError>)
    ensures ok.Ok? <==> ValidStart(r) && r.capabilityCount == receivedCapabilities
    ensures ok.Err? ==> ok.error.offset == 0
    ensures ok.Err? ==> (ok.error.kind.CapabilityMismatch? <==>
                           r.operationId != ZERO_ID
                           && !(SlotsMatchMode(r) && r.capabilityCount == receivedCapabilities))
  {
    if r.operationId == ZERO_ID {
      return Err(ProtocolError(InvalidSemanticState, 0));
    }
    if r.capabilityCount > MAX_CAPABILITIES || r.capabilityCount != receivedCapabilities {
      return Err(ProtocolError(CapabilityMismatch, 0));
    }
    if r.sourceCapability >= r.capabilityCount {
      return Err(ProtocolError(CapabilityMismatch, 0));
    }
    match r.mode {
      case Inspect => {
        if r.capabilityCount != 1 || r.stageCapability.Some? {
          return Err(ProtocolError(CapabilityMismatch, 0));
        }
      }
      case Materialize => {
        if r.stageCapability.None? {
          return Err(ProtocolError(CapabilityMismatch, 0));
        }
        var stage := r.stageCapability.value;
        if r.capabilityCount != 2 || stage >= r.capabilityCount || stage == r.sourceCapability {
          assert stage == r.sourceCapability ==> {r.sourceCapability, stage} == {stage};
          assert {r.sourceCapability, stage} == {0, 1} ==>
                 0 in {r.sourceCapability, stage} && 1 in {r.sourceCapability, stage};
          return Err(ProtocolError(CapabilityMismatch, 0));
        }
      }
    }
    if r.sourceLen > r.limits.maxArchiveBytes {
      return Err(ProtocolError(InvalidSemanticState, 0));
    }
    return Ok(());
  }

  // ---- The payload ----

  function ModeCode(mode: ExecutionMode): byte {
    match mode
    case Inspect => 0
    case Materialize => 1
  }

  function ProfileCode(profile: InterpretationProfile): byte {
    match profile
    case StrictAsciiV1 => 1
    case StrictAsciiV2 => 2
  }

  function Flag(b: bool): byte {
    if b then 1 else 0
  }

  function SlotOrNone(slot: Option<u16>): u16 {
    if slot.Some? then slot.value else NO_CAPABILITY_SLOT
  }

  function RatioOrZero(ratio: Option<u64>): u64 {
    if ratio.Some? then ratio.value else 0
  }

  const ZEROES7: seq<byte> := [0, 0, 0, 0, 0, 0, 0]

  function IdentityBytes(r: StartRequest): seq<byte> {
    r.operationId + [ModeCode(r.mode), ProfileCode(r.interpretationProfile), Flag(r.memberSync), 0]
  }

  function SlotBytes(r: StartRequest): seq<byte> {
    Le16(r.capabilityCount) + (Le16(r.sourceCapability) + (Le16(SlotOrNone(r.stageCapability)) + Le16(0)))
  }

  function SourceBytes(r: StartRequest): seq<byte> {
    Le64(r.sourceLen) + (r.sourceSha256 + (r.interpretationProfileSha256 + r.policySha256))
  }

  function QuotaBytes(l: ResourceLimits): seq<byte> {
    Le64(l.maxArchiveBytes) + (Le64(l.maxFiles) + (Le64(l.maxMemberBytes) + Le64(l.maxTotalBytes)))
  }

  function RatioBytes(l: ResourceLimits): seq<byte> {
    [Flag(l.maxRatio.Some?)] + (ZEROES7 + Le64(RatioOrZero(l.maxRatio)))
  }

  function DepthBytes(l: ResourceLimits): seq<byte> {
    Le32(l.maxPathDepth) + (Le32(0) + Le64(l.maxMetadataBytes))
  }

  function StartPayload(r: StartRequest): (p: seq<byte>)
    ensures |p| == START_PAYLOAD_BYTES
  {
    IdentityBytes(r) +
    (SlotBytes(r) + (SourceBytes(r) + (QuotaBytes(r.limits) + (RatioBytes(r.limits) + DepthBytes(r.limits)))))
  }

  // ---- The same payload, by offset ----

  datatype Invocation = Invocation(operationId: OperationId, mode: ExecutionMode, profile: InterpretationProfile,
          memberSync: bool)

  function InvocationOf(r: StartRequest): Invocation {
    Invocation(r.operationId, r.mode, r.interpretationProfile, r.memberSync)
  }

  predicate IdentityAt(s: seq<byte>, i: Invocation) {
    && |s| == START_PAYLOAD_BYTES
    && s[..16] == i.operationId && s[16] == ModeCode(i.mode) && s[17] == ProfileCode(i.profile)
    && s[18] == Flag(i.memberSync) && s[19] == 0
  }

  predicate SlotsAt(s: seq<byte>, r: StartRequest) {
    && |s| == START_PAYLOAD_BYTES
    && LeU16(s, 20) == r.capabilityCount && LeU16(s, 22) == r.sourceCapability
    && LeU16(s, 24) == SlotOrNone(r.stageCapability) && LeU16(s, 26) == 0
  }

  predicate SourceAt(s: seq<byte>, r: StartRequest) {
    && |s| == START_PAYLOAD_BYTES
    && LeU64(s, 28) == r.sourceLen && s[36..68] == r.sourceSha256
    && s[68..100] == r.interpretationProfileSha256 && s[100..132] == r.policySha256
  }

  predicate QuotasAt(s: seq<byte>, l: ResourceLimits) {
    && |s| == START_PAYLOAD_BYTES
    && LeU64(s, 132) == l.maxArchiveBytes && LeU64(s, 140) == l.maxFiles
    && LeU64(s, 148) == l.maxMemberBytes && LeU64(s, 156) == l.maxTotalBytes
  }

  predicate RatioAt(s: seq<byte>, l: ResourceLimits) {
    && |s| == START_PAYLOAD_BYTES
    && s[164] == Flag(l.maxRatio.Some?) && AllZero(s[165..172]) && LeU64(s, 172) == RatioOrZero(l.maxRatio)
    && LeU32(s, 180) == l.maxPathDepth && LeU32(s, 184) == 0 && LeU64(s, 188) == l.maxMetadataBytes
  }

  predicate StartAt(s: seq<byte>, r: StartRequest) {
    && |s| == START_PAYLOAD_BYTES
    && IdentityAt(s, InvocationOf(r)) && SlotsAt(s, r) && SourceAt(s, r) && QuotasAt(s, r.limits)
    && RatioAt(s, r.limits)
  }

  lemma IdentityLayout(s: seq<byte>, r: StartRequest)
    requires |s| == START_PAYLOAD_BYTES
    ensures Occurs(s, 0, IdentityBytes(r)) <==> IdentityAt(s, InvocationOf(r))
  {
    OccursAppend(s, 0, r.operationId, [ModeCode(r.mode), ProfileCode(r.interpretationProfile), Flag(r.memberSync), 0]);
    assert s[16..20] == [s[16], s[17], s[18], s[19]];
  }

  lemma SlotLayout(s: seq<byte>, r: StartRequest)
    requires |s| == START_PAYLOAD_BYTES
    ensures Occurs(s, 20, SlotBytes(r)) <==> SlotsAt(s, r)
  {
    var stage := SlotOrNone(r.stageCapability);
    OccursAppend4(s, 20, Le16(r.capabilityCount), Le16(r.sourceCapability), Le16(stage), Le16(0));
    Le16Occurs(s, 20, r.capabilityCount);
    Le16Occurs(s, 22, r.sourceCapability);
    Le16Occurs(s, 24, stage);
    Le16Occurs(s, 26, 0);
  }

  lemma LeLengths()
    ensures forall n: u32 :: |Le32(n)| == 4
    ensures forall n: u64 :: |Le64(n)| == 8
  {
  }

  lemma SourceLayout(s: seq<byte>, r: StartRequest)
    requires |s| == START_PAYLOAD_BYTES
    ensures Occurs(s, 28, SourceBytes(r)) <==> SourceAt(s, r)
  {
    LeLengths();
    hide Le64, LeU64;
    OccursAppend4(s, 28, Le64(r.sourceLen), r.sourceSha256, r.interpretationProfileSha256, r.policySha256);
    Le64Occurs(s, 28, r.sourceLen);
  }

  lemma QuotaLayout(s: seq<byte>, l: ResourceLimits)
    requires |s| == START_PAYLOAD_BYTES
    ensures Occurs(s, 132, QuotaBytes(l)) <==> QuotasAt(s, l)
  {
    LeLengths();
    hide Le64, LeU64;
    OccursAppend4(s, 132, Le64(l.maxArchiveBytes), Le64(l.maxFiles), Le64(l.maxMemberBytes), Le64(l.maxTotalBytes));
    Le64Occurs(s, 132, l.maxArchiveBytes);
    Le64Occurs(s, 140, l.maxFiles);
    Le64Occurs(s, 148, l.maxMemberBytes);
    Le64Occurs(s, 156, l.maxTotalBytes);
  }

  lemma RatioLayout(s: seq<byte>, l: ResourceLimits)
    requires |s| == START_PAYLOAD_BYTES
    ensures Occurs(s, 164, RatioBytes(l)) && Occurs(s, 180, DepthBytes(l)) <==> RatioAt(s, l)
  {
    var flag, ratio := [Flag(l.maxRatio.Some?)], RatioOrZero(l.maxRatio);
    LeLengths();
    assert Occurs(s, 165, ZEROES7) <==> AllZero(s[165..172]) by {
      if AllZero(s[165..172]) { assert s[165..172] == ZEROES7; }
    }
    hide Le64, LeU64, Le32, LeU32;
    OccursAppend(s, 164, flag, ZEROES7 + Le64(ratio));
    OccursAppend(s, 165, ZEROES7, Le64(ratio));
    ByteOccurs(s, 164, Flag(l.maxRatio.Some?));
    Le64Occurs(s, 172, ratio);
    OccursAppend(s, 180, Le32(l.maxPathDepth), Le32(0) + Le64(l.maxMetadataBytes));
    OccursAppend(s, 184, Le32(0), Le64(l.maxMetadataBytes));
    Le32Occurs(s, 180, l.maxPathDepth);
    Le32Occurs(s, 184, 0);
    Le64Occurs(s, 188, l.maxMetadataBytes);
  }

  lemma GroupLengths(r: StartRequest)
    ensures |IdentityBytes(r)| == 20 && |SlotBytes(r)| == 8 && |SourceBytes(r)| == 104
    ensures |QuotaBytes(r.limits)| == 32 && |RatioBytes(r.limits)| == 16 && |DepthBytes(r.limits)| == 16
  {
  }

  lemma SixParts(s: seq<byte>, a: seq<byte>, b: seq<byte>, c: seq<byte>, d: seq<byte>, e: seq<byte>, f: seq<byte>)
    requires |s| == |a| + |b| + |c| + |d| + |e| + |f|
    ensures s == a + (b + (c + (d + (e + f)))) <==>
            Occurs(s, 0, a) && Occurs(s, |a|, b) && Occurs(s, |a| + |b|, c) && Occurs(s, |a| + |b| + |c|, d)
            && Occurs(s, |a| + |b| + |c| + |d|, e) && Occurs(s, |a| + |b| + |c| + |d| + |e|, f)
  {
    var tail := d + (e + f);
    var whole := a + (b + (c + tail));
    assert s == s[0..|s|] && |whole| == |s|;
    assert s == whole <==> Occurs(s, 0, whole);
    hide Occurs;
    OccursAppend4(s, 0, a, b, c, tail);
    OccursAppend(s, |a| + |b| + |c|, d, e + f);
    OccursAppend(s, |a| + |b| + |c| + |d|, e, f);
  }

  /** The payload's bytes and its fields at fixed offsets say the same. */
  lemma PayloadLayout(s: seq<byte>, r: StartRequest)
    ensures s == StartPayload(r) <==> StartAt(s, r)
  {
    GroupLengths(r);
    if |s| == START_PAYLOAD_BYTES {
      hide IdentityBytes, SlotBytes, SourceBytes, QuotaBytes, RatioBytes, DepthBytes;
      hide IdentityAt, SlotsAt, SourceAt, QuotasAt, RatioAt;
      var l := r.limits;
      SixParts(s, IdentityBytes(r), SlotBytes(r), SourceBytes(r), QuotaBytes(l), RatioBytes(l), DepthBytes(l));
      hide Occurs;
      IdentityLayout(s, r);
      SlotLayout(s, r);
      SourceLayout(s, r);
      QuotaLayout(s, l);
      RatioLayout(s, l);
    }
  }

  /** Different requests differ in some field of the payload, and so in their bytes. */
  lemma PayloadDeterminesRequest(a: StartRequest, b: StartRequest)
    requires ValidStart(a) && ValidStart(b) && StartPayload(a) == StartPayload(b)
    ensures a == b
  {
    var s := StartPayload(a);
    PayloadLayout(s, a);
    PayloadLayout(s, b);
    hide LeU16, LeU32, LeU64, StartPayload;
  }

  // ---- Encoding ----

  function FrameOf(r: StartRequest): seq<byte> {
    Frame(FRAME_KIND_START, StartPayload(r))
  }

  method AppendIdentity(output: Output, r: StartRequest)
    modifies output
    ensures output.bytes == old(output.bytes) + IdentityBytes(r)
  {
    output.Extend(r.operationId);
    output.Push(match r.mode case Inspect => 0 case Materialize => 1);
    output.Push(match r.interpretationProfile case StrictAsciiV1 => 1 case StrictAsciiV2 => 2);
    output.Push(if r.memberSync then 1 else 0);
    output.Push(0);
  }

  method AppendSlotsAndSource(output: Output, r: StartRequest)
    modifies output
    ensures output.bytes == old(output.bytes) + SlotBytes(r) + SourceBytes(r)
  {
    hide Le16, Le64;
    output.PushU16(r.capabilityCount);
    output.PushU16(r.sourceCapability);
    output.PushU16(if r.stageCapability.Some? then r.stageCapability.value else NO_CAPABILITY_SLOT);
    output.PushU16(0);
    Assoc4(old(output.bytes), Le16(r.capabilityCount), Le16(r.sourceCapability), Le16(SlotOrNone(r.stageCapability)),
           Le16(0));
    ghost var before := output.bytes;
    output.PushU64(r.sourceLen);
    output.Extend(r.sourceSha256);
    output.Extend(r.interpretationProfileSha256);
    output.Extend(r.policySha256);
    Assoc4(before, Le64(r.sourceLen), r.sourceSha256, r.interpretationProfileSha256, r.policySha256);
  }

  method AppendLimits(output: Output, l: ResourceLimits)
    modifies output
    ensures output.bytes == old(output.bytes) + QuotaBytes(l) + RatioBytes(l) + DepthBytes(l)
  {
    hide Le64, Le32;
    output.PushU64(l.maxArchiveBytes);
    output.PushU64(l.maxFiles);
    output.PushU64(l.maxMemberBytes);
    output.PushU64(l.maxTotalBytes);
    Assoc4(old(output.bytes), Le64(l.maxArchiveBytes), Le64(l.maxFiles), Le64(l.maxMemberBytes), Le64(l.maxTotalBytes));
    ghost var quotas := output.bytes;
    output.Push(if l.maxRatio.Some? then 1 else 0);
    output.Extend([0, 0, 0, 0, 0, 0, 0]);
    output.PushU64(if l.maxRatio.Some? then l.maxRatio.value else 0);
    assert output.bytes == quotas + RatioBytes(l);
    ghost var ratio := output.bytes;
    output.PushU32(l.maxPathDepth);
    output.PushU32(0);
    output.PushU64(l.maxMetadataBytes);
    assert output.bytes == ratio + DepthBytes(l);
  }

  lemma PayloadAppended(header: seq<byte>, r: StartRequest)
    ensures header + IdentityBytes(r) + SlotBytes(r) + SourceBytes(r) + QuotaBytes(r.limits) + RatioBytes(r.limits) +
            DepthBytes(r.limits)
            == header + StartPayload(r)
  {
    hide IdentityBytes, SlotBytes, SourceBytes, QuotaBytes, RatioBytes, DepthBytes;
    var l := r.limits;
    Assoc4(header, IdentityBytes(r), SlotBytes(r), SourceBytes(r), QuotaBytes(l) + (RatioBytes(l) + DepthBytes(l)));
    Assoc4(header + IdentityBytes(r) + SlotBytes(r), SourceBytes(r), QuotaBytes(l), RatioBytes(l), DepthBytes(l));
  }

  /** `encode_start`: exactly the coherent requests are encoded. */
  method EncodeStart(r: StartRequest) returns (frame: Result<seq<byte>, ProtocolError>)
    ensures frame.Ok? <==> ValidStart(r)
    ensures frame.Ok? ==> frame.value == FrameOf(r)
  {
    hide ValidStart, Frame, StartPayload, IdentityBytes, SlotBytes, SourceBytes, QuotaBytes, RatioBytes, DepthBytes;
    var _ :- ValidateStart(r, r.capabilityCount);
    var output := new Output();
    output.Header(FRAME_KIND_START, START_PAYLOAD_BYTES);
    ghost var header := output.bytes;
    AppendIdentity(output, r);
    AppendSlotsAndSource(output, r);
    AppendLimits(output, r.limits);
    PayloadAppended(header, r);
    return Ok(output.bytes);
  }

  // ---- Decoding ----

  method DecodeBool(value: byte, error: ProtocolError) returns (r: Result<bool, ProtocolError>)
    ensures r.Ok? <==> exists b :: value == Flag(b)
    ensures r.Ok? ==> value == Flag(r.value)
    ensures r.Err? ==> r.error == error
  {
    if value == 0 {
      assert value == Flag(false);
      return Ok(false);
    }
    if value == 1 {
      assert value == Flag(true);
      return Ok(true);
    }
    return Err(error);
  }

  /** The first 20 bytes. */
  method DecodeIdentity(cursor: Cursor) returns (r: Result<Invocation, ProtocolError>)
    requires cursor.Valid() && cursor.position == 0
    modifies cursor
    ensures cursor.Valid()
    ensures r.Ok? ==>
            cursor.position == 20 && (|cursor.input| == START_PAYLOAD_BYTES ==> IdentityAt(cursor.input, r.value))
    ensures r.Err? ==> forall i :: !IdentityAt(cursor.input, i)
    ensures r.Err? ==> r.error.offset <= cursor.base + |cursor.input|
  {
    var operationId :- cursor.Bytes(16);
    var modeByte :- cursor.U8();
    var mode;
    match modeByte {
      case 0 => mode := Inspect;
      case 1 => mode := Materialize;
      case _ => return Err(cursor.Error(InvalidEnum));
    }
    var profileByte :- cursor.U8();
    var profile;
    match profileByte {
      case 1 => profile := StrictAsciiV1;
      case 2 => profile := StrictAsciiV2;
      case _ => return Err(cursor.Error(InvalidEnum));
    }
    var syncByte :- cursor.U8();
    var memberSync :- DecodeBool(syncByte, cursor.Error(InvalidEnum));
    var reserved :- cursor.U8();
    if reserved != 0 {
      return Err(cursor.Error(ReservedNonZero));
    }
    return Ok(Invocation(operationId, mode, profile, memberSync));
  }

  /** A request with the fields of bytes 20 to 132; what comes before and after is not read here. */
  method DecodeSlotsAndSource(cursor: Cursor, invocation: Invocation) returns (r: Result<StartRequest, ProtocolError>)
    requires cursor.Valid() && cursor.position == 20
    modifies cursor
    ensures cursor.Valid()
    ensures r.Ok? ==>
            cursor.position == 132 && InvocationOf(r.value) == invocation
            && r.value.stageCapability != Some(NO_CAPABILITY_SLOT)
    ensures r.Ok? && |cursor.input| == START_PAYLOAD_BYTES ==>
            SlotsAt(cursor.input, r.value) && SourceAt(cursor.input, r.value)
    ensures r.Err? ==> forall q :: !SlotsAt(cursor.input, q)
    ensures r.Err? ==> r.error.offset <= cursor.base + |cursor.input|
  {
    hide LeU16, LeU64;
    var capabilityCount :- cursor.U16();
    var sourceCapability :- cursor.U16();
    var encodedStage :- cursor.U16();
    var stageCapability := if encodedStage != NO_CAPABILITY_SLOT then Some(encodedStage) else None;
    var reserved :- cursor.U16();
    if reserved != 0 {
      return Err(cursor.Error(ReservedNonZero));
    }
    var sourceLen :- cursor.U64();
    var sourceSha256 :- cursor.Bytes(32);
    var interpretationProfileSha256 :- cursor.Bytes(32);
    var policySha256 :- cursor.Bytes(32);
    return Ok(StartRequest(invocation.operationId, invocation.mode, invocation.profile, invocation.memberSync,
                           capabilityCount, sourceCapability, stageCapability, sourceLen, sourceSha256,
                           interpretationProfileSha256, policySha256, ResourceLimits(0, 0, 0, 0, None, 0, 0)));
  }

  /** The four quotas, from byte 132. */
  method DecodeQuotas(cursor: Cursor) returns (r: Result<ResourceLimits, ProtocolError>)
    requires cursor.Valid() && cursor.position == 132
    modifies cursor
    ensures cursor.Valid()
    ensures r.Ok? ==>
            cursor.position == 164 && (|cursor.input| == START_PAYLOAD_BYTES ==> QuotasAt(cursor.input, r.value))
    ensures r.Err? ==> |cursor.input| != START_PAYLOAD_BYTES
    ensures r.Err? ==> r.error.offset <= cursor.base + |cursor.input|
  {
    hide LeU64;
    var maxArchiveBytes :- cursor.U64();
    var maxFiles :- cursor.U64();
    var maxMemberBytes :- cursor.U64();
    var maxTotalBytes :- cursor.U64();
    return Ok(ResourceLimits(maxArchiveBytes, maxFiles, maxMemberBytes, maxTotalBytes, None, 0, 0));
  }

  /** The rest of the limits, from byte 164, with the ratio's presence flag and its raw value. */
  method DecodeLimits(cursor: Cursor, quotas: ResourceLimits)
    returns (r: Result<(ResourceLimits, bool, u64), ProtocolError>)
    requires cursor.Valid() && cursor.position == 164
    modifies cursor
    ensures cursor.Valid()
    ensures r.Ok? ==> cursor.position == START_PAYLOAD_BYTES
    ensures r.Ok? && |cursor.input| == START_PAYLOAD_BYTES && QuotasAt(cursor.input, quotas) ==>
            QuotasAt(cursor.input, r.value.0)
    ensures r.Ok? && |cursor.input| == START_PAYLOAD_BYTES && (r.value.1 || r.value.2 == 0) ==>
            RatioAt(cursor.input, r.value.0)
    ensures r.Ok? && !r.value.1 && r.value.2 != 0 ==> forall l :: !RatioAt(cursor.input, l)
    ensures r.Err? ==> forall l :: !RatioAt(cursor.input, l)
    ensures r.Err? ==> r.error.offset <= cursor.base + |cursor.input|
  {
    hide LeU64, LeU32, AllZero;
    var presentByte :- cursor.U8();
    var present :- DecodeBool(presentByte, cursor.Error(InvalidEnum));
    var _ :- cursor.Zeroes(7);
    var ratio :- cursor.U64();
    var maxPathDepth :- cursor.U32();
    var reserved :- cursor.U32();
    if reserved != 0 {
      return Err(cursor.Error(ReservedNonZero));
    }
    var maxMetadataBytes :- cursor.U64();
    var maxRatio := if present then Some(ratio) else None;
    return Ok((quotas.(maxRatio := maxRatio, maxPathDepth := maxPathDepth, maxMetadataBytes := maxMetadataBytes),
               present, ratio));
  }

  /** A payload holds a request the decoder may return. */
  predicate Carries(payload: seq<byte>, r: StartRequest, receivedCapabilities: u16) {
    StartAt(payload, r) && ValidStart(r) && r.capabilityCount == receivedCapabilities
  }

  lemma SlotsIgnoreLimits(s: seq<byte>, r: StartRequest, l: ResourceLimits)
    ensures SlotsAt(s, r) ==> SlotsAt(s, r.(limits := l))
    ensures SourceAt(s, r) ==> SourceAt(s, r.(limits := l))
  {
  }

  /** `decode_start` on the payload: the request whose fields these bytes are, if there is one. */
  method DecodePayload(payload: seq<byte>, receivedCapabilities: u16) returns (r: Result<StartRequest, ProtocolError>)
    ensures forall q :: Carries(payload, q, receivedCapabilities) <==> r == Ok(q)
    ensures r.Err? ==> r.error.offset <= FRAME_HEADER_BYTES + |payload|
  {
    hide IdentityAt, SlotsAt, SourceAt, QuotasAt, RatioAt, ValidStart, LeU16, LeU32, LeU64;
    var cursor := new Cursor(payload, FRAME_HEADER_BYTES);
    var invocation :- DecodeIdentity(cursor);
    var partial :- DecodeSlotsAndSource(cursor, invocation);
    var quotas :- DecodeQuotas(cursor);
    var limits :- DecodeLimits(cursor, quotas);
    var _ :- cursor.Finish();
    var request := partial.(limits := limits.0);
    if !limits.1 && limits.2 != 0 {
      return Err(ProtocolError(InvalidSemanticState, FRAME_HEADER_BYTES + 172));
    }
    SlotsIgnoreLimits(payload, partial, limits.0);
    assert StartAt(payload, request);
    forall q | Carries(payload, q, receivedCapabilities) ensures q == request {
      FieldsDetermineRequest(payload, request, q);
    }
    var _ :- ValidateStart(request, receivedCapabilities);
    return Ok(request);
  }

  /** A valid request is the only request with its fields: no valid stage slot is the wire's "none". */
  lemma FieldsDetermineRequest(s: seq<byte>, a: StartRequest, b: StartRequest)
    requires StartAt(s, a) && StartAt(s, b) && ValidStart(b)
    requires a.stageCapability != Some(NO_CAPABILITY_SLOT)
    ensures a == b
  {
    hide LeU16, LeU32, LeU64;
  }

  /** A start frame seen by offset. */
  predicate HoldsStart(input: seq<byte>, r: StartRequest) {
    && Framed(input, FRAME_KIND_START)
    && |input| == FRAME_HEADER_BYTES + START_PAYLOAD_BYTES
    && StartAt(input[FRAME_HEADER_BYTES..], r)
  }

  lemma StartFrameHolds(input: seq<byte>, r: StartRequest)
    ensures input == FrameOf(r) <==> HoldsStart(input, r)
    ensures input == FrameOf(r) ==> input[FRAME_HEADER_BYTES..] == StartPayload(r)
  {
    hide Frame, StartPayload, StartAt;
    FrameLayout([], FRAME_KIND_START, StartPayload(r));
    FramedIsFrame(input, FRAME_KIND_START);
    if |input| >= FRAME_HEADER_BYTES { PayloadLayout(input[FRAME_HEADER_BYTES..], r); }
  }

  lemma CarriedStart(input: seq<byte>, r: StartRequest, receivedCapabilities: u16)
    ensures HoldsStart(input, r) && ValidStart(r) && r.capabilityCount == receivedCapabilities <==>
            && Framed(input, FRAME_KIND_START)
            && |input| == FRAME_HEADER_BYTES + START_PAYLOAD_BYTES
            && Carries(input[FRAME_HEADER_BYTES..], r, receivedCapabilities)
  {
    hide Framed, StartAt, ValidStart;
  }

  /** `decode_start`: the inverse of `encode_start`, and defined on nothing else. */
  method DecodeStart(input: seq<byte>, receivedCapabilities: u16) returns (r: Result<StartRequest, ProtocolError>)
    ensures forall q ::
              ValidStart(q) && q.capabilityCount == receivedCapabilities && input == FrameOf(q) <==> r == Ok(q)
    ensures r.Err? ==> r.error.offset <= |input|
  {
    forall q ensures input == FrameOf(q) <==> HoldsStart(input, q) {
      StartFrameHolds(input, q);
    }
    forall q ensures HoldsStart(input, q) && ValidStart(q) && q.capabilityCount == receivedCapabilities <==>
                     && Framed(input, FRAME_KIND_START)
                     && |input| == FRAME_HEADER_BYTES + START_PAYLOAD_BYTES
                     && Carries(input[FRAME_HEADER_BYTES..], q, receivedCapabilities)
    {
      CarriedStart(input, q, receivedCapabilities);
    }
    hide *;
    var payload := DecodeHeader(input, FRAME_KIND_START);
    if payload.Err? {
      return Err(payload.error);
    }
    if |payload.value| != START_PAYLOAD_BYTES {
      return Err(ProtocolError(CountInconsistent, FRAME_HEADER_BYTES));
    }
    r := DecodePayload(payload.value, receivedCapabilities);
  }
}
