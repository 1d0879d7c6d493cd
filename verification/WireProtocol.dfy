/** The two codecs together: round trips, unique readability, and binding a result to its request. */
module WireProtocol {
  import opened Prelude
  import opened Wire
  import opened WireStrings
  import opened ResultFrame
  import opened ResultCodec
  import opened ResultDecoder
  import opened ManifestDecoder
  import FindingDecoder
  import StartFrame
  import Utf8

  // ---- One frame, one value ----

  lemma EntriesAgree(s: seq<byte>, at: nat, a: ManifestEntry, b: ManifestEntry)
    requires ValidPath(a.path) && ValidPath(b.path) && EntryAt(s, at, a) && EntryAt(s, at, b)
    ensures a == b
  {
    hide LeU16, LeU64;
  }

  lemma StringsAgree(s: seq<byte>, at: nat, fixed: FindingDecoder.FindingFixed, a: ProtocolFinding, b: ProtocolFinding)
    requires FindingDecoder.Announces(fixed, a) && FindingDecoder.Announces(fixed, b)
    requires FindingDecoder.StringsAt(s, at, a) && FindingDecoder.StringsAt(s, at, b)
    ensures a == b
  {
    hide Utf8.Valid, Occurs;
    OccursDetermines(s, at, a.code, b.code);
    OccursDetermines(s, at + |a.code|, a.detail, b.detail);
    OccursDetermines(s, at + |a.code| + |a.detail|, PathBytes(a.memberPath), PathBytes(b.memberPath));
  }

  lemma FixedAgree(s: seq<byte>, at: nat, a: FindingDecoder.FindingFixed, b: FindingDecoder.FindingFixed)
    requires FindingDecoder.FixedAt(s, at, a) && FindingDecoder.FixedAt(s, at, b)
    ensures a == b
  {
    hide LeU16;
  }

  lemma FindingsAgree(s: seq<byte>, at: nat, a: ProtocolFinding, b: ProtocolFinding)
    requires FindingOk(a) && FindingOk(b) && FindingAt(s, at, a) && FindingAt(s, at, b)
    ensures a == b
  {
    hide *;
    FindingDecoder.FindingParts(s, at, a);
    FindingDecoder.FindingParts(s, at, b);
    FixedAgree(s, at, FindingDecoder.FixedOf(a), FindingDecoder.FixedOf(b));
    StringsAgree(s, at + FINDING_FIXED_BYTES, FindingDecoder.FixedOf(a), a, b);
  }

  lemma ListLengths(s: seq<byte>, at: nat, count: nat)
    ensures forall m :: ManifestAt(s, at, count, m) ==> |m| == count
    ensures forall m :: FindingDecoder.FindingsAt(s, at, count, m) ==> |m| == count
  {
    hide Utf8.Valid, EntryOk, FindingOk, Concat;
  }

  lemma {:induction false} ManifestsAgree(s: seq<byte>, at: nat, count: nat, a: seq<ManifestEntry>,
          b: seq<ManifestEntry>, i: nat)
    requires ManifestAt(s, at, count, a) && ManifestAt(s, at, count, b) && i <= count
    ensures a[..i] == b[..i]
  {
    hide *;
    ListLengths(s, at, count);
    if i > 0 {
      ManifestsAgree(s, at, count, a, b, i - 1);
      EntryOfManifest(s, at, count, a, i - 1);
      EntryOfManifest(s, at, count, b, i - 1);
      EntriesAgree(s, at + |Concat(EntryBytes, a[..i - 1])|, a[i - 1], b[i - 1]);
      assert a[..i] == a[..i - 1] + [a[i - 1]] && b[..i] == b[..i - 1] + [b[i - 1]];
    }
  }

  lemma {:induction false} FindingListsAgree(s: seq<byte>, at: nat, count: nat, a: seq<ProtocolFinding>,
          b: seq<ProtocolFinding>, i: nat)
    requires FindingDecoder.FindingsAt(s, at, count, a) && FindingDecoder.FindingsAt(s, at, count, b) && i <= count
    ensures a[..i] == b[..i]
  {
    hide *;
    ListLengths(s, at, count);
    if i > 0 {
      FindingListsAgree(s, at, count, a, b, i - 1);
      FindingDecoder.FindingOfList(s, at, count, a, i - 1);
      FindingDecoder.FindingOfList(s, at, count, b, i - 1);
      FindingsAgree(s, at + |Concat(FindingBytes, a[..i - 1])|, a[i - 1], b[i - 1]);
      assert a[..i] == a[..i - 1] + [a[i - 1]] && b[..i] == b[..i - 1] + [b[i - 1]];
    }
  }

  lemma HeadsAgree(s: seq<byte>, a: ResultHead, b: ResultHead)
    requires HeadAt(s, a) && HeadAt(s, b)
    ensures a == b
  {
    hide LeU16, LeU32;
  }

  lemma AsShaped(r: WorkerResult)
    requires ValidResult(r)
    ensures Shaped(ResultPayload(r), r, r.operationId)
  {
  }

  lemma HeadFields(a: WorkerResult, b: WorkerResult)
    requires HeadOf(a) == HeadOf(b)
    ensures a == b.(manifest := a.manifest, findings := a.findings)
  {
  }

  /** One payload encodes at most one valid result. */
  lemma PayloadDeterminesResult(a: WorkerResult, b: WorkerResult)
    requires ValidResult(a) && ValidResult(b) && ResultPayload(a) == ResultPayload(b)
    ensures a == b
  {
    hide *;
    var s := ResultPayload(a);
    AsShaped(a);
    AsShaped(b);
    ShapedParts(s, a, a.operationId);
    ShapedParts(s, b, b.operationId);
    EntriesEndIs(a);
    EntriesEndIs(b);
    HeadsAgree(s, HeadOf(a), HeadOf(b));
    HeadFields(a, b);
    ManifestsAgree(s, RESULT_FIXED_PAYLOAD_BYTES, |a.manifest|, a.manifest, b.manifest, |a.manifest|);
    assert a.manifest[..|a.manifest|] == a.manifest && b.manifest[..|b.manifest|] == b.manifest;
    FindingListsAgree(s, RESULT_FIXED_PAYLOAD_BYTES + |Concat(EntryBytes, a.manifest)|, |a.findings|,
                      a.findings, b.findings, |a.findings|);
    assert a.findings[..|a.findings|] == a.findings && b.findings[..|b.findings|] == b.findings;
  }

  /** No result frame is another's, nor a proper prefix of another's. */
  lemma ResultFramesArePrefixFree(a: WorkerResult, b: WorkerResult)
    requires Encodable(a) && Encodable(b) && FrameOf(a) <= FrameOf(b)
    ensures a == b
  {
    hide Frame, ResultPayload, ValidResult;
    NoFrameIsAProperPrefix(FRAME_KIND_RESULT, ResultPayload(a), FRAME_KIND_RESULT, ResultPayload(b));
    PayloadDeterminesResult(a, b);
  }

  lemma StartFramesArePrefixFree(a: StartFrame.StartRequest, b: StartFrame.StartRequest)
    requires StartFrame.ValidStart(a) && StartFrame.ValidStart(b) && StartFrame.FrameOf(a) <= StartFrame.FrameOf(b)
    ensures a == b
  {
    hide Frame, StartFrame.StartPayload, StartFrame.ValidStart;
    NoFrameIsAProperPrefix(FRAME_KIND_START, StartFrame.StartPayload(a), FRAME_KIND_START, StartFrame.StartPayload(b));
    StartFrame.PayloadDeterminesRequest(a, b);
  }

  /** Frames of the two kinds are never confused. */
  lemma KindsAreDisjoint(request: StartFrame.StartRequest, result: WorkerResult)
    requires Encodable(result)
    ensures !(StartFrame.FrameOf(request) <= FrameOf(result)) && !(FrameOf(result) <= StartFrame.FrameOf(request))
  {
    hide Frame, StartFrame.StartPayload, ResultPayload, ValidResult;
    var p, q := StartFrame.StartPayload(request), ResultPayload(result);
    if Frame(FRAME_KIND_START, p) <= Frame(FRAME_KIND_RESULT, q) {
      NoFrameIsAProperPrefix(FRAME_KIND_START, p, FRAME_KIND_RESULT, q);
    }
    if Frame(FRAME_KIND_RESULT, q) <= Frame(FRAME_KIND_START, p) {
      NoFrameIsAProperPrefix(FRAME_KIND_RESULT, q, FRAME_KIND_START, p);
    }
  }

  // ---- Round trips ----

  /** Whatever is encoded decodes to itself. */
  method EncodeThenDecode(r: WorkerResult)
    returns (frame: Result<seq<byte>, ProtocolError>, back: Result<WorkerResult, ProtocolError>)
    ensures frame.Ok? <==> Encodable(r)
    ensures frame.Ok? ==> back == Ok(r)
  {
    frame := EncodeResult(r);
    if frame.Err? {
      return frame, Err(frame.error);
    }
    back := DecodeResult(frame.value, r.operationId, 0);
    assert Deliverable(r, r.operationId, 0);
  }

  /** Whatever is decoded re-encodes to the same bytes. */
  method DecodeThenEncode(input: seq<byte>, expected: OperationId)
    returns (r: Result<WorkerResult, ProtocolError>, again: Result<seq<byte>, ProtocolError>)
    ensures r.Ok? ==> again == Ok(input)
  {
    r := DecodeResult(input, expected, 0);
    if r.Err? {
      return r, Err(r.error);
    }
    again := EncodeResult(r.value);
  }

  method StartRoundTrip(q: StartFrame.StartRequest)
    returns (frame: Result<seq<byte>, ProtocolError>, back: Result<StartFrame.StartRequest, ProtocolError>)
    ensures frame.Ok? <==> StartFrame.ValidStart(q)
    ensures frame.Ok? ==> back == Ok(q) && |frame.value| == FRAME_HEADER_BYTES + StartFrame.START_PAYLOAD_BYTES
  {
    hide StartFrame.ValidStart, StartFrame.StartPayload, Frame;
    frame := StartFrame.EncodeStart(q);
    if frame.Err? {
      return frame, Err(frame.error);
    }
    FrameLayout([], FRAME_KIND_START, StartFrame.StartPayload(q));
    back := StartFrame.DecodeStart(frame.value, q.capabilityCount);
  }

  // ---- Binding a result to its request ----

  /** Bytes of all files of a manifest. */
  function TotalFileBytes(manifest: seq<ManifestEntry>): nat {
    if manifest == [] then 0
    else TotalFileBytes(manifest[..|manifest| - 1]) +
         (if manifest[|manifest| - 1].kind.File? then manifest[|manifest| - 1].size else 0)
  }

  lemma {:induction false} TotalGrows(manifest: seq<ManifestEntry>, i: nat)
    requires i <= |manifest|
    ensures TotalFileBytes(manifest[..i]) <= TotalFileBytes(manifest)
    decreases |manifest|
  {
    if i < |manifest| {
      var front := manifest[..|manifest| - 1];
      TotalGrows(front, i);
      assert front[..i] == manifest[..i];
    } else {
      assert manifest[..i] == manifest;
    }
  }

  /** The manifest keeps every limit of the request. */
  predicate WithinLimits(manifest: seq<ManifestEntry>, limits: StartFrame.ResourceLimits) {
    && |manifest| <= limits.maxFiles
    && (forall i :: 0 <= i < |manifest| ==> Depth(manifest[i].path) <= limits.maxPathDepth)
    && (forall i :: 0 <= i < |manifest| && manifest[i].kind.File? ==> manifest[i].size <= limits.maxMemberBytes)
    && TotalFileBytes(manifest) <= limits.maxTotalBytes
  }

  predicate Answers(r: WorkerResult, q: StartFrame.StartRequest) {
    && StartFrame.ValidStart(q) && ValidResult(r)
    && r.operationId == q.operationId
    && r.interpretationProfileSha256 == q.interpretationProfileSha256
    && WithinLimits(r.manifest, q.limits)
  }

  method CountDepth(path: seq<byte>) returns (depth: nat)
    ensures depth == Depth(path)
  {
    depth := 1;
    for i := |path| downto 0
      invariant depth == Depth(path[i..])
    {
      assert path[i..][1..] == path[i + 1..];
      if path[i] == SLASH {
        depth := depth + 1;
      }
    }
    assert path[0..] == path;
  }

  /** The running total with its checked addition never passes a manifest whose exact total is over the limit. */
  method CheckLimits(manifest: seq<ManifestEntry>, limits: StartFrame.ResourceLimits)
    returns (ok: Result<(), ProtocolError>)
    ensures ok.Ok? <==> WithinLimits(manifest, limits)
    ensures ok.Err? ==> ok.error.offset == 0 && ok.error.kind in {RequestMismatch, IntegerOverflow}
    ensures ok.Err? && ok.error.kind == IntegerOverflow ==> TotalFileBytes(manifest) > U64_MAX
  {
    hide Depth, Utf8.Valid;
    if |manifest| > limits.maxFiles {
      return Err(ProtocolError(RequestMismatch, 0));
    }
    var total: u64 := 0;
    for i := 0 to |manifest|
      invariant total == TotalFileBytes(manifest[..i]) <= limits.maxTotalBytes
      invariant forall k :: 0 <= k < i ==> Depth(manifest[k].path) <= limits.maxPathDepth
      invariant forall k :: 0 <= k < i && manifest[k].kind.File? ==> manifest[k].size <= limits.maxMemberBytes
    {
      var entry := manifest[i];
      var depth := CountDepth(entry.path);
      if depth > limits.maxPathDepth {
        return Err(ProtocolError(RequestMismatch, 0));
      }
      assert manifest[..i + 1][..i] == manifest[..i];
      TotalGrows(manifest, i + 1);
      if entry.kind.File? {
        if entry.size > limits.maxMemberBytes {
          return Err(ProtocolError(RequestMismatch, 0));
        }
        if total + entry.size > U64_MAX {
          return Err(ProtocolError(IntegerOverflow, 0));
        }
        total := total + entry.size;
        if total > limits.maxTotalBytes {
          return Err(ProtocolError(RequestMismatch, 0));
        }
      }
    }
    assert manifest[..|manifest|] == manifest;
    return Ok(());
  }

  /** `validate_result_for_request`. */
  method ValidateForRequest(r: WorkerResult, q: StartFrame.StartRequest) returns (ok: Result<(), ProtocolError>)
    ensures ok.Ok? <==> Answers(r, q)
    ensures ok.Err? ==> ok.error.offset == 0
  {
    hide ValidResult, StartFrame.ValidStart, WithinLimits;
    var _ :- StartFrame.ValidateStart(q, q.capabilityCount);
    var _ :- ValidateResult(r);
    if r.operationId != q.operationId {
      return Err(ProtocolError(CorrelationMismatch, 0));
    }
    if r.interpretationProfileSha256 != q.interpretationProfileSha256 {
      return Err(ProtocolError(RequestMismatch, 0));
    }
    var _ :- CheckLimits(r.manifest, q.limits);
    return Ok(());
  }

  /** `decode_result_for_request`: exactly the frames of results that answer the request. */
  method DecodeForRequest(input: seq<byte>, q: StartFrame.StartRequest, receivedCapabilities: u16)
    returns (r: Result<WorkerResult, ProtocolError>)
    ensures forall v ::
              Answers(v, q) && Encodable(v) && receivedCapabilities == 0 && input == FrameOf(v) <==> r == Ok(v)
  {
    hide ValidResult, StartFrame.ValidStart, WithinLimits, ResultPayload, Frame;
    var _ :- StartFrame.ValidateStart(q, q.capabilityCount);
    var result :- DecodeResult(input, q.operationId, receivedCapabilities);
    var _ :- ValidateForRequest(result, q);
    return Ok(result);
  }
}
