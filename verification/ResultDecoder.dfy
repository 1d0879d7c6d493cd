/** Decoding result frames: the exact inverse of encoding them. */
module ResultDecoder {
  import opened Prelude
  import opened Wire
  import opened ResultFrame
  import opened ResultCodec
  import opened ManifestDecoder
  import opened FindingDecoder
  import Paths

  // ---- The fixed head ----

  /** `decode_optional_digest`: an absent root is written as zeroes. */
  method DecodeRoot(present: bool, bytes: Digest, error: ProtocolError)
    returns (r: Result<Option<Digest>, ProtocolError>)
    ensures forall root: Option<Digest> :: root.Some? == present && RootBytes(root) == bytes <==> r == Ok(root)
    ensures r.Err? <==> !present && bytes != ZERO_DIGEST
    ensures r.Err? ==> r.error == error
  {
    if present {
      return Ok(Some(bytes));
    }
    if bytes == ZERO_DIGEST {
      return Ok(None);
    }
    return Err(error);
  }

  predicate Admissible(h: ResultHead, expected: OperationId) {
    h.operationId == expected && h.memberCount <= MAX_MANIFEST_MEMBERS && h.findingCount <= MAX_FINDINGS
  }

  datatype Roots = Roots(profile: Digest, layout: Option<Digest>, content: Option<Digest>)

  predicate RootsAt(s: seq<byte>, flags: byte, roots: Roots) {
    && |s| >= RESULT_FIXED_PAYLOAD_BYTES && RootFlags(roots.layout, roots.content) == flags
    && s[28..60] == roots.profile && s[60..92] == RootBytes(roots.layout) && s[92..124] == RootBytes(roots.content)
  }

  /** The profile identity and the two roots at the end of the head. */
  method DecodeRoots(cursor: Cursor, flags: byte) returns (r: Result<Roots, ProtocolError>)
    requires cursor.Valid() && cursor.position == 28 && flags < 4
    modifies cursor
    ensures cursor.Valid()
    ensures forall roots :: RootsAt(cursor.input, flags, roots) <==> r == Ok(roots)
    ensures r.Ok? ==> cursor.position == RESULT_FIXED_PAYLOAD_BYTES
    ensures r.Err? ==> cursor.base <= r.error.offset <= cursor.base + |cursor.input|
    ensures r.Err? && |cursor.input| >= RESULT_FIXED_PAYLOAD_BYTES ==>
              r.error == ProtocolError(InvalidSemanticState, cursor.base + RESULT_FIXED_PAYLOAD_BYTES)
    ensures |cursor.input| >= RESULT_FIXED_PAYLOAD_BYTES ==>
              (r.Err? <==> (flags % 2 == 0 && cursor.input[60..92] != ZERO_DIGEST)
                           || (flags / 2 == 0 && cursor.input[92..124] != ZERO_DIGEST))
  {
    var profile :- cursor.Bytes(32);
    var layoutBytes :- cursor.Bytes(32);
    var contentBytes :- cursor.Bytes(32);
    hide ZERO_DIGEST;
    var layout :- DecodeRoot(flags % 2 == 1, layoutBytes, cursor.Error(InvalidSemanticState));
    var content :- DecodeRoot(flags / 2 == 1, contentBytes, cursor.Error(InvalidSemanticState));
    return Ok(Roots(profile, layout, content));
  }

  /** The first field of the head at fault, where an offset is counted in `s` from `base`. */
  function HeadFault(s: seq<byte>, expected: OperationId, base: nat): Option<ProtocolError>
    requires |s| >= RESULT_FIXED_PAYLOAD_BYTES
  {
    if s[..16] != expected then Some(ProtocolError(CorrelationMismatch, base + 16))
    else if !(1 <= s[16] <= 3) then Some(ProtocolError(InvalidEnum, base + 17))
    else if s[17] >= 4 then Some(ProtocolError(ReservedNonZero, base + 18))
    else if LeU16(s, 18) != 0 then Some(ProtocolError(ReservedNonZero, base + 20))
    else if LeU32(s, 20) > MAX_MANIFEST_MEMBERS || LeU32(s, 24) > MAX_FINDINGS then
      Some(ProtocolError(LimitExceeded, base + 28))
    else if (s[17] % 2 == 0 && s[60..92] != ZERO_DIGEST) || (s[17] / 2 == 0 && s[92..124] != ZERO_DIGEST) then
      Some(ProtocolError(InvalidSemanticState, base + RESULT_FIXED_PAYLOAD_BYTES))
    else None
  }

  /** Everything before the records. */
  method DecodeHead(cursor: Cursor, expected: OperationId) returns (r: Result<ResultHead, ProtocolError>)
    requires cursor.Valid() && cursor.position == 0
    modifies cursor
    ensures cursor.Valid()
    ensures forall h :: Admissible(h, expected) && HeadAt(cursor.input, h) <==> r == Ok(h)
    ensures r.Ok? ==> cursor.position == RESULT_FIXED_PAYLOAD_BYTES
    ensures r.Err? ==> cursor.base <= r.error.offset <= cursor.base + |cursor.input|
    ensures RESULT_FIXED_PAYLOAD_BYTES <= |cursor.input| && cursor.input[..16] != expected ==>
              r == Err(ProtocolError(CorrelationMismatch, cursor.base + 16))
    ensures |cursor.input| >= RESULT_FIXED_PAYLOAD_BYTES ==>
              HeadFault(cursor.input, expected, cursor.base) == if r.Err? then Some(r.error) else None
  {
    hide LeU16, LeU32;
    forall h: ResultHead | HeadAt(cursor.input, h)
      ensures RootsAt(cursor.input, cursor.input[17], Roots(h.interpretationProfileSha256, h.layoutRoot, h.contentRoot))
    {
    }
    var operationId :- cursor.Bytes(16);
    if operationId != expected {
      return Err(cursor.Error(CorrelationMismatch));
    }
    var statusByte :- cursor.U8();
    var status;
    match statusByte {
      case 1 => status := Complete;
      case 2 => status := Rejected;
      case 3 => status := Failed;
      case _ => return Err(cursor.Error(InvalidEnum));
    }
    var flags :- cursor.U8();
    if flags >= 4 {
      return Err(cursor.Error(ReservedNonZero));
    }
    var reserved :- cursor.U16();
    if reserved != 0 {
      return Err(cursor.Error(ReservedNonZero));
    }
    var memberCount :- cursor.U32();
    var findingCount :- cursor.U32();
    if memberCount > MAX_MANIFEST_MEMBERS {
      return Err(cursor.Error(LimitExceeded));
    }
    if findingCount > MAX_FINDINGS {
      return Err(cursor.Error(LimitExceeded));
    }
    var roots :- DecodeRoots(cursor, flags);
    return Ok(ResultHead(operationId, status, memberCount, findingCount, roots.profile, roots.layout, roots.content));
  }

  // ---- The whole result ----

  /** The three parts of a payload. */
  lemma PayloadParts(s: seq<byte>, r: WorkerResult)
    requires ManifestOk(r.manifest) && FindingsOk(r.findings)
    ensures var entries := Concat(EntryBytes, r.manifest);
            var at := RESULT_FIXED_PAYLOAD_BYTES + |entries|;
            s == ResultPayload(r) <==>
            && HeadAt(s, HeadOf(r))
            && ManifestAt(s, RESULT_FIXED_PAYLOAD_BYTES, |r.manifest|, r.manifest)
            && FindingsAt(s, at, |r.findings|, r.findings)
            && |s| == at + |Concat(FindingBytes, r.findings)|
  {
    hide HeadBytes, HeadAt, Concat, ManifestOk, FindingsOk;
    var head, entries, findings := HeadBytes(HeadOf(r)), Concat(EntryBytes, r.manifest),
                                   Concat(FindingBytes, r.findings);
    HeadLayout(s, HeadOf(r));
    OccursAppend(s, 0, head, entries + findings);
    OccursAppend(s, |head|, entries, findings);
    assert |s| == |ResultPayload(r)| ==> (s == ResultPayload(r) <==> Occurs(s, 0, ResultPayload(r))) by {
      assert s == s[0..|s|];
    }
  }

  /** The payload is a well-formed encoding for the expected operation; whether it makes sense is another matter. */
  predicate Shaped(payload: seq<byte>, r: WorkerResult, expected: OperationId) {
    && r.operationId == expected && payload == ResultPayload(r)
    && |r.manifest| <= MAX_MANIFEST_MEMBERS && |r.findings| <= MAX_FINDINGS
    && ManifestOk(r.manifest) && FindingsOk(r.findings)
  }

  /** What the decoder looks for: a valid result of the expected operation in this payload. */
  predicate Carries(payload: seq<byte>, r: WorkerResult, expected: OperationId) {
    ValidResult(r) && r.operationId == expected && payload == ResultPayload(r)
  }

  lemma CarriedIsShaped(payload: seq<byte>, r: WorkerResult, expected: OperationId)
    ensures Carries(payload, r, expected) <==> Shaped(payload, r, expected) && ValidResult(r)
  {
    hide ManifestOk, FindingsOk, ResultPayload, StatusCoherent, Paths.NoFileAbove;
  }

  /** Where the records of a result end. */
  function EntriesEnd(r: WorkerResult): nat {
    RESULT_FIXED_PAYLOAD_BYTES + |Concat(EntryBytes, r.manifest)|
  }

  lemma ShapedParts(payload: seq<byte>, r: WorkerResult, expected: OperationId)
    requires Shaped(payload, r, expected)
    ensures Admissible(HeadOf(r), expected) && HeadAt(payload, HeadOf(r))
    ensures HeadOf(r).memberCount == |r.manifest| && HeadOf(r).findingCount == |r.findings|
    ensures ManifestAt(payload, RESULT_FIXED_PAYLOAD_BYTES, |r.manifest|, r.manifest)
    ensures FindingsAt(payload, EntriesEnd(r), |r.findings|, r.findings)
    ensures |payload| == EntriesEnd(r) + |Concat(FindingBytes, r.findings)| >= RESULT_FIXED_PAYLOAD_BYTES
  {
    hide HeadAt, ManifestAt, FindingsAt, ResultPayload, Concat, ManifestOk, FindingsOk;
    PayloadParts(payload, r);
  }

  /** A result put together from a head and its records. */
  function Assembled(h: ResultHead, manifest: seq<ManifestEntry>, findings: seq<ProtocolFinding>): WorkerResult {
    WorkerResult(h.operationId, h.status, h.interpretationProfileSha256, h.layoutRoot, h.contentRoot, manifest,
                 findings)
  }

  /** The parts, put back together, are one payload. */
  lemma AssembledPayload(payload: seq<byte>, h: ResultHead, r: WorkerResult, expected: OperationId)
    requires Admissible(h, expected) && HeadAt(payload, h) && r == Assembled(h, r.manifest, r.findings)
    requires ManifestAt(payload, RESULT_FIXED_PAYLOAD_BYTES, h.memberCount, r.manifest)
    requires FindingsAt(payload, EntriesEnd(r), h.findingCount, r.findings)
    requires |payload| == EntriesEnd(r) + |Concat(FindingBytes, r.findings)|
    ensures Shaped(payload, r, expected)
  {
    hide HeadAt, ResultPayload, Concat, ManifestOk, FindingsOk;
    assert HeadOf(r) == h;
    PayloadParts(payload, r);
  }

  lemma ShapedResult(v: WorkerResult, h: ResultHead, result: WorkerResult)
    requires HeadOf(v) == h && v.manifest == result.manifest && v.findings == result.findings
    requires result == Assembled(h, result.manifest, result.findings)
    ensures v == result
  {
  }

  /** What keeps these counts of records from filling the rest of the payload. */
  ghost predicate RecordsFault(payload: seq<byte>, members: nat, findings: nat, error: ProtocolError) {
    var base, at := FRAME_HEADER_BYTES, RESULT_FIXED_PAYLOAD_BYTES;
    || ManifestFault(payload, at, members, base, error)
    || exists m :: && ManifestAt(payload, at, members, m)
                   && RestFault(payload, at + |Concat(EntryBytes, m)|, findings, error)
  }

  /** What keeps the findings from filling the payload from `at` on: a fault in one, or bytes left over. */
  ghost predicate RestFault(payload: seq<byte>, at: nat, findings: nat, error: ProtocolError) {
    || FindingsFault(payload, at, findings, FRAME_HEADER_BYTES, error)
    || exists f :: FindingsAt(payload, at, findings, f) && LeftOver(payload, at + |Concat(FindingBytes, f)|, error)
  }

  predicate LeftOver(payload: seq<byte>, end: nat, error: ProtocolError) {
    end < |payload| && error == ProtocolError(TrailingBytes, FRAME_HEADER_BYTES + end)
  }

  /** What keeps a payload from being a well-formed encoding for the expected operation. */
  ghost predicate PayloadFault(payload: seq<byte>, expected: OperationId, error: ProtocolError) {
    if |payload| < RESULT_FIXED_PAYLOAD_BYTES then error == ProtocolError(Truncated, FRAME_HEADER_BYTES)
    else
      var head := HeadFault(payload, expected, FRAME_HEADER_BYTES);
      if head.Some? then head == Some(error)
      else RecordsFault(payload, LeU32(payload, 20), LeU32(payload, 24), error)
  }

  lemma HeadCountsAt(payload: seq<byte>, h: ResultHead, expected: OperationId, error: ProtocolError)
    requires HeadAt(payload, h) && HeadFault(payload, expected, FRAME_HEADER_BYTES).None?
    requires RecordsFault(payload, h.memberCount, h.findingCount, error)
    ensures PayloadFault(payload, expected, error)
  {
    hide RecordsFault, LeU16, LeU32;
  }

  lemma RestIsFaulty(payload: seq<byte>, members: nat, findings: nat, m: seq<ManifestEntry>, error: ProtocolError)
    requires ManifestAt(payload, RESULT_FIXED_PAYLOAD_BYTES, members, m)
    requires RestFault(payload, RESULT_FIXED_PAYLOAD_BYTES + |Concat(EntryBytes, m)|, findings, error)
    ensures RecordsFault(payload, members, findings, error)
  {
    hide ManifestAt, RestFault, Concat;
  }

  lemma BytesLeftOver(payload: seq<byte>, at: nat, findings: nat, f: seq<ProtocolFinding>, end: nat)
    requires FindingsAt(payload, at, findings, f) && end == at + |Concat(FindingBytes, f)| < |payload|
    ensures RestFault(payload, at, findings, ProtocolError(TrailingBytes, FRAME_HEADER_BYTES + end))
  {
    hide FindingsAt, Concat;
    assert LeftOver(payload, end, ProtocolError(TrailingBytes, FRAME_HEADER_BYTES + end));
  }

  lemma FindingsAreFaulty(payload: seq<byte>, at: nat, findings: nat, error: ProtocolError)
    requires FindingsFault(payload, at, findings, FRAME_HEADER_BYTES, error)
    ensures RestFault(payload, at, findings, error)
  {
    hide FindingsFault;
  }

  lemma ManifestIsFaulty(payload: seq<byte>, members: nat, findings: nat, error: ProtocolError)
    requires ManifestFault(payload, RESULT_FIXED_PAYLOAD_BYTES, members, FRAME_HEADER_BYTES, error)
    ensures RecordsFault(payload, members, findings, error)
  {
    hide ManifestFault;
  }

  /** Everything after the head. */
  method DecodeRecords(cursor: Cursor, head: ResultHead, expected: OperationId)
    returns (r: Result<WorkerResult, ProtocolError>)
    requires cursor.Valid() && cursor.position == RESULT_FIXED_PAYLOAD_BYTES && cursor.base == FRAME_HEADER_BYTES
    requires Admissible(head, expected) && HeadAt(cursor.input, head)
    requires forall v :: Shaped(cursor.input, v, expected) ==> HeadOf(v) == head
    modifies cursor
    ensures forall v :: Shaped(cursor.input, v, expected) <==> r == Ok(v)
    ensures r.Err? ==> FRAME_HEADER_BYTES <= r.error.offset <= FRAME_HEADER_BYTES + |cursor.input|
    ensures r.Err? ==> RecordsFault(cursor.input, head.memberCount, head.findingCount, r.error)
  {
    hide *;
    ghost var payload := cursor.input;
    var manifest := DecodeManifest(cursor, head.memberCount);
    forall v | Shaped(payload, v, expected) ensures manifest == Ok(v.manifest) {
      ShapedParts(payload, v, expected);
    }
    if manifest.Err? {
      ManifestIsFaulty(payload, head.memberCount, head.findingCount, manifest.error);
      return Err(manifest.error);
    }
    ghost var findingsAt := cursor.position;
    var findings := DecodeFindings(cursor, head.findingCount);
    forall v | Shaped(payload, v, expected)
      ensures findings == Ok(v.findings) && |payload| == findingsAt + |Concat(FindingBytes, v.findings)|
    {
      ShapedParts(payload, v, expected);
      EntriesEndIs(v);
    }
    if findings.Err? {
      FindingsAreFaulty(payload, findingsAt, head.findingCount, findings.error);
      RestIsFaulty(payload, head.memberCount, head.findingCount, manifest.value, findings.error);
      return Err(findings.error);
    }
    CursorInside(cursor);
    var end := cursor.Finish();
    if end.Err? {
      BytesLeftOver(payload, findingsAt, head.findingCount, findings.value, cursor.position);
      RestIsFaulty(payload, head.memberCount, head.findingCount, manifest.value, end.error);
      return Err(end.error);
    }
    var result := WorkerResult(head.operationId, head.status, head.interpretationProfileSha256, head.layoutRoot,
                               head.contentRoot, manifest.value, findings.value);
    EntriesEndIs(result);
    AssembledIs(head, result);
    AssembledPayload(payload, head, result, expected);
    forall v | Shaped(payload, v, expected) ensures v == result {
      ShapedResult(v, head, result);
    }
    return Ok(result);
  }

  lemma CursorInside(cursor: Cursor)
    requires cursor.Valid()
    ensures cursor.position <= |cursor.input|
  {
  }

  lemma EntriesEndIs(r: WorkerResult)
    ensures EntriesEnd(r) == RESULT_FIXED_PAYLOAD_BYTES + |Concat(EntryBytes, r.manifest)|
  {
  }

  lemma AssembledIs(h: ResultHead, r: WorkerResult)
    requires r == WorkerResult(h.operationId, h.status, h.interpretationProfileSha256, h.layoutRoot, h.contentRoot,
                               r.manifest, r.findings)
    ensures r == Assembled(h, r.manifest, r.findings)
  {
  }

  /** Decoding without the final validation. */
  method DecodeShape(payload: seq<byte>, expected: OperationId) returns (r: Result<WorkerResult, ProtocolError>)
    ensures forall v :: Shaped(payload, v, expected) <==> r == Ok(v)
    ensures r.Err? ==> FRAME_HEADER_BYTES <= r.error.offset <= FRAME_HEADER_BYTES + |payload|
    ensures |payload| >= RESULT_FIXED_PAYLOAD_BYTES && payload[..16] != expected ==>
              r == Err(ProtocolError(CorrelationMismatch, FRAME_HEADER_BYTES + 16))
    ensures r.Err? ==> PayloadFault(payload, expected, r.error)
  {
    hide *;
    NoHead(payload, expected);
    if |payload| < RESULT_FIXED_PAYLOAD_BYTES {
      forall v ensures !Shaped(payload, v, expected) {
        if Shaped(payload, v, expected) { ShapedParts(payload, v, expected); }
      }
      return Err(ProtocolError(Truncated, FRAME_HEADER_BYTES));
    }
    var cursor := new Cursor(payload, FRAME_HEADER_BYTES);
    var head := DecodeHead(cursor, expected);
    forall v | Shaped(payload, v, expected) ensures head == Ok(HeadOf(v)) {
      ShapedParts(payload, v, expected);
    }
    if head.Err? {
      return Err(head.error);
    }
    HeadHasOperation(payload, head.value, expected);
    r := DecodeRecords(cursor, head.value, expected);
    if r.Err? { HeadCountsAt(payload, head.value, expected, r.error); }
  }

  lemma NoHead(payload: seq<byte>, expected: OperationId)
    ensures |payload| < RESULT_FIXED_PAYLOAD_BYTES ==>
              PayloadFault(payload, expected, ProtocolError(Truncated, FRAME_HEADER_BYTES))
    ensures |payload| >= RESULT_FIXED_PAYLOAD_BYTES ==>
              forall error :: HeadFault(payload, expected, FRAME_HEADER_BYTES) == Some(error) ==>
                                PayloadFault(payload, expected, error)
  {
    hide HeadFault, RecordsFault;
  }

  lemma HeadHasOperation(payload: seq<byte>, h: ResultHead, expected: OperationId)
    requires Admissible(h, expected) && HeadAt(payload, h)
    ensures |payload| >= RESULT_FIXED_PAYLOAD_BYTES && payload[..16] == expected
  {
    hide LeU16, LeU32;
  }

  /** `decode_result` on the payload; an error at offset 0 means a well-formed payload that makes no sense. */
  method DecodePayload(payload: seq<byte>, expected: OperationId) returns (r: Result<WorkerResult, ProtocolError>)
    ensures forall v :: Carries(payload, v, expected) <==> r == Ok(v)
    ensures r.Err? ==> r.error.offset <= FRAME_HEADER_BYTES + |payload|
    ensures r.Err? ==> (r.error.offset == 0 <==> exists v :: Shaped(payload, v, expected))
    ensures r.Err? ==> r.error == ProtocolError(InvalidSemanticState, 0) || PayloadFault(payload, expected, r.error)
    ensures |payload| >= RESULT_FIXED_PAYLOAD_BYTES && payload[..16] != expected ==>
              r == Err(ProtocolError(CorrelationMismatch, FRAME_HEADER_BYTES + 16))
  {
    forall v ensures Carries(payload, v, expected) <==> Shaped(payload, v, expected) && ValidResult(v) {
      CarriedIsShaped(payload, v, expected);
    }
    hide *;
    var result := DecodeShape(payload, expected);
    if result.Err? {
      return Err(result.error);
    }
    ShapedIsOrderly(payload, result.value, expected);
    var valid := ValidateResult(result.value);
    if valid.Err? {
      return Err(valid.error);
    }
    return Ok(result.value);
  }

  lemma ShapedIsOrderly(payload: seq<byte>, r: WorkerResult, expected: OperationId)
    requires Shaped(payload, r, expected)
    ensures |r.manifest| <= MAX_MANIFEST_MEMBERS && |r.findings| <= MAX_FINDINGS
    ensures ManifestOk(r.manifest) && FindingsOk(r.findings)
  {
    hide ManifestOk, FindingsOk, ResultPayload;
  }

  /** What a caller may receive: an encodable result of the expected operation. */
  predicate Deliverable(r: WorkerResult, expected: OperationId, receivedCapabilities: u16) {
    Encodable(r) && r.operationId == expected && receivedCapabilities == 0
  }

  /** `decode_result`: the exact inverse of `encode_result`, and defined on nothing else. */
  method DecodeResult(input: seq<byte>, expected: OperationId, receivedCapabilities: u16)
    returns (r: Result<WorkerResult, ProtocolError>)
    ensures forall v :: Deliverable(v, expected, receivedCapabilities) && input == FrameOf(v) <==> r == Ok(v)
    ensures r.Err? ==> r.error.offset <= |input|
    ensures r.Err? && receivedCapabilities == 0 && Framed(input, FRAME_KIND_RESULT) ==>
              (r.error.offset == 0 <==> exists v :: Shaped(input[FRAME_HEADER_BYTES..], v, expected))
    ensures receivedCapabilities == 0 && !Framed(input, FRAME_KIND_RESULT) ==>
              r.Err? && HeaderFault(input, FRAME_KIND_RESULT) == Some(r.error)
    ensures r.Err? && receivedCapabilities == 0 && Framed(input, FRAME_KIND_RESULT) ==>
              || r.error == ProtocolError(InvalidSemanticState, 0)
              || PayloadFault(input[FRAME_HEADER_BYTES..], expected, r.error)
    ensures receivedCapabilities == 0 && Framed(input, FRAME_KIND_RESULT)
            && |input| >= FRAME_HEADER_BYTES + RESULT_FIXED_PAYLOAD_BYTES && input[16..32] != expected ==>
              r == Err(ProtocolError(CorrelationMismatch, 32))
    ensures receivedCapabilities != 0 ==> r == Err(ProtocolError(CapabilityMismatch, 0))
  {
    forall v ensures Deliverable(v, expected, 0) && input == FrameOf(v) <==>
                     Framed(input, FRAME_KIND_RESULT) && Carries(input[FRAME_HEADER_BYTES..], v, expected)
    {
      ResultFrameHolds(input, v, expected);
    }
    hide *;
    if receivedCapabilities != 0 {
      return Err(ProtocolError(CapabilityMismatch, 0));
    }
    var payload :- DecodeHeader(input, FRAME_KIND_RESULT);
    r := DecodePayload(payload, expected);
  }

  lemma ResultFrameHolds(input: seq<byte>, r: WorkerResult, expected: OperationId)
    ensures Deliverable(r, expected, 0) && input == FrameOf(r) <==>
            Framed(input, FRAME_KIND_RESULT) && Carries(input[FRAME_HEADER_BYTES..], r, expected)
  {
    hide Frame, ResultPayload, ValidResult, LeU16, LeU32;
    FramedIsFrame(input, FRAME_KIND_RESULT);
    if Deliverable(r, expected, 0) { FrameLayout([], FRAME_KIND_RESULT, ResultPayload(r)); }
  }
}
