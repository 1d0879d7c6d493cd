/** Encoding, validating and decoding result frames. */
module ResultCodec {
  import opened Prelude
  import opened Wire
  import opened WireStrings
  import opened ResultFrame
  import Lex
  import Paths

  // ---- Validation ----

  method AnyError(findings: seq<ProtocolFinding>) returns (any: bool)
    ensures any <==> HasErrorFinding(findings)
  {
    for i := 0 to |findings|
      invariant forall k :: 0 <= k < i ==> !findings[k].severity.Error?
    {
      if findings[i].severity.Error? {
        return true;
      }
    }
    return false;
  }

  method ValidateManifest(manifest: seq<ManifestEntry>) returns (ok: Result<(), ProtocolError>)
    ensures ok.Ok? <==> ManifestOk(manifest)
    ensures ok.Err? ==> ok.error.offset == 0
  {
    hide ValidPath;
    var previous: Option<Text> := None;
    for i := 0 to |manifest|
      invariant previous == if i == 0 then None else Some(manifest[i - 1].path)
      invariant forall k :: 0 <= k < i ==> EntryOk(manifest[k])
      invariant forall k :: 1 <= k < i ==> Lex.Less(manifest[k - 1].path, manifest[k].path)
    {
      var entry := manifest[i];
      if !ValidString(entry.path, PathString) {
        return Err(ProtocolError(InvalidString, 0));
      }
      if previous.Some? && !Lex.Less(previous.value, entry.path) {
        return Err(ProtocolError(NonCanonicalOrder, 0));
      }
      if entry.kind.Directory? && (entry.size != 0 || entry.sha256 != ZERO_DIGEST) {
        assert !EntryOk(entry);
        return Err(ProtocolError(InvalidSemanticState, 0));
      }
      previous := Some(entry.path);
    }
    return Ok(());
  }

  method ValidateFindings(findings: seq<ProtocolFinding>) returns (ok: Result<(), ProtocolError>)
    ensures ok.Ok? <==> FindingsOk(findings)
    ensures ok.Err? ==> ok.error == ProtocolError(InvalidString, 0)
  {
    hide ValidPath, ValidCode, ValidDetail;
    for i := 0 to |findings|
      invariant forall k :: 0 <= k < i ==> FindingOk(findings[k])
    {
      var finding := findings[i];
      if !ValidString(finding.code, FindingCode) {
        return Err(ProtocolError(InvalidString, 0));
      }
      if !ValidString(finding.detail, Detail) {
        return Err(ProtocolError(InvalidString, 0));
      }
      if finding.memberPath.Some? && !ValidString(finding.memberPath.value, PathString) {
        return Err(ProtocolError(InvalidString, 0));
      }
    }
    return Ok(());
  }

  /** `validate_result`. */
  method ValidateResult(r: WorkerResult) returns (ok: Result<(), ProtocolError>)
    ensures ok.Ok? <==> ValidResult(r)
    ensures ok.Err? ==> ok.error.offset == 0
    ensures ok.Err? && |r.manifest| <= MAX_MANIFEST_MEMBERS && |r.findings| <= MAX_FINDINGS
            && ManifestOk(r.manifest) && FindingsOk(r.findings) ==>
              ok.error.kind == InvalidSemanticState
  {
    hide ManifestOk, FindingsOk, HasErrorFinding, Paths.NoFileAbove;
    if r.operationId == ZERO_ID {
      return Err(ProtocolError(InvalidSemanticState, 0));
    }
    if |r.manifest| > MAX_MANIFEST_MEMBERS {
      return Err(ProtocolError(LimitExceeded, 0));
    }
    if |r.findings| > MAX_FINDINGS {
      return Err(ProtocolError(LimitExceeded, 0));
    }
    var anyError := AnyError(r.findings);
    match r.status {
      case Complete => {
        if r.layoutRoot.None? || r.contentRoot.None? {
          return Err(ProtocolError(InvalidSemanticState, 0));
        }
        if anyError {
          return Err(ProtocolError(InvalidSemanticState, 0));
        }
      }
      case _ => {
        if r.manifest != [] || r.contentRoot.Some? {
          return Err(ProtocolError(InvalidSemanticState, 0));
        }
        if !anyError {
          return Err(ProtocolError(InvalidSemanticState, 0));
        }
      }
    }
    var _ :- ValidateManifest(r.manifest);
    ManifestIsOrdered(r.manifest);
    var flat := Paths.ValidateTopology(Shapes(r.manifest));
    if !flat {
      return Err(ProtocolError(InvalidSemanticState, 0));
    }
    var _ :- ValidateFindings(r.findings);
    return Ok(());
  }

  lemma ManifestIsOrdered(manifest: seq<ManifestEntry>)
    requires ManifestOk(manifest)
    ensures Paths.Ordered(Shapes(manifest))
  {
    AscendingIsOrdered(manifest);
  }

  // ---- Encoding ----

  /** `result_payload_len`: the length computed ahead of the encoding is the length of the encoding. */
  method PayloadLen(r: WorkerResult) returns (len: nat)
    ensures len == |ResultPayload(r)|
  {
    hide HeadBytes, EntryBytes, FindingBytes;
    len := RESULT_FIXED_PAYLOAD_BYTES;
    for i := 0 to |r.manifest|
      invariant len == RESULT_FIXED_PAYLOAD_BYTES + |Concat(EntryBytes, r.manifest[..i])|
    {
      EntryLength(r.manifest[i]);
      ConcatAppend(EntryBytes, r.manifest[..i], r.manifest[i]);
      assert r.manifest[..i + 1] == r.manifest[..i] + [r.manifest[i]];
      len := len + MANIFEST_ENTRY_FIXED_BYTES + |r.manifest[i].path|;
    }
    assert r.manifest[..|r.manifest|] == r.manifest;
    for i := 0 to |r.findings|
      invariant len ==
                RESULT_FIXED_PAYLOAD_BYTES + |Concat(EntryBytes, r.manifest)| + |Concat(FindingBytes, r.findings[..i])|
    {
      var finding := r.findings[i];
      FindingLength(finding);
      ConcatAppend(FindingBytes, r.findings[..i], finding);
      assert r.findings[..i + 1] == r.findings[..i] + [finding];
      len := len + FINDING_FIXED_BYTES + |finding.code| + |finding.detail|
      + (if finding.memberPath.Some? then |finding.memberPath.value| else 0);
    }
    assert r.findings[..|r.findings|] == r.findings;
  }

  method AppendCounts(output: Output, r: WorkerResult)
    modifies output
    ensures output.bytes == old(output.bytes) + HeadCounts(HeadOf(r))
  {
    hide Le16, Le32;
    output.Push(match r.status case Complete => 1 case Rejected => 2 case Failed => 3);
    output.Push((if r.layoutRoot.Some? then 1 else 0) + (if r.contentRoot.Some? then 2 else 0));
    ghost var lead := [StatusCode(r.status), RootFlags(r.layoutRoot, r.contentRoot)];
    assert output.bytes == old(output.bytes) + lead;
    output.PushU16(0);
    output.PushU32(|r.manifest| % 0x1_0000_0000);
    output.PushU32(|r.findings| % 0x1_0000_0000);
    ghost var h := HeadOf(r);
    Assoc4(old(output.bytes), lead, Le16(0), Le32(h.memberCount), Le32(h.findingCount));
  }

  method AppendHead(output: Output, r: WorkerResult)
    modifies output
    ensures output.bytes == old(output.bytes) + HeadBytes(HeadOf(r))
  {
    hide HeadCounts;
    ghost var h := HeadOf(r);
    ghost var layout: seq<byte>, content: seq<byte> := RootBytes(r.layoutRoot), RootBytes(r.contentRoot);
    output.Extend(r.operationId);
    AppendCounts(output, r);
    output.Extend(r.interpretationProfileSha256);
    output.Extend(if r.layoutRoot.Some? then r.layoutRoot.value else ZERO_DIGEST);
    output.Extend(if r.contentRoot.Some? then r.contentRoot.value else ZERO_DIGEST);
    Assoc4<byte>(old(output.bytes), r.operationId, HeadCounts(h), r.interpretationProfileSha256, layout + content);
    ghost var front := old(output.bytes) + r.operationId + HeadCounts(h) + r.interpretationProfileSha256;
    assert front + layout + content == front + (layout + content);
  }

  method AppendEntry(output: Output, entry: ManifestEntry)
    modifies output
    ensures output.bytes == old(output.bytes) + EntryBytes(entry)
  {
    hide Le16, Le64;
    output.PushU16(|entry.path| % 0x1_0000);
    output.Push(match entry.kind case File => 1 case Directory => 2);
    output.Push(0);
    output.PushU64(entry.size);
    output.Extend(entry.sha256);
    output.Extend(entry.path);
  }

  method AppendFindingFixed(output: Output, finding: ProtocolFinding)
    modifies output
    ensures output.bytes == old(output.bytes) + FindingFixedBytes(finding)
  {
    hide Le16;
    output.PushU16(|finding.code| % 0x1_0000);
    output.PushU16(|finding.detail| % 0x1_0000);
    output.PushU16(if finding.memberPath.Some? then |finding.memberPath.value| % 0x1_0000 else NO_PATH);
    output.Push(match finding.severity case Warning => 1 case Error => 2);
    output.Push(0);
    ghost var code: u16, detail: u16 := |finding.code| % 0x1_0000, |finding.detail| % 0x1_0000;
    ghost var front := old(output.bytes) + Le16(code) + Le16(detail) + Le16(PathLen(finding.memberPath));
    assert output.bytes == front + [SeverityCode(finding.severity)] + [0] ==
           front + [SeverityCode(finding.severity), 0];
    Assoc4(old(output.bytes), Le16(code), Le16(detail), Le16(PathLen(finding.memberPath)),
           [SeverityCode(finding.severity), 0]);
  }

  method AppendFinding(output: Output, finding: ProtocolFinding)
    modifies output
    ensures output.bytes == old(output.bytes) + FindingBytes(finding)
  {
    hide FindingFixedBytes;
    AppendFindingFixed(output, finding);
    output.Extend(finding.code);
    output.Extend(finding.detail);
    if finding.memberPath.Some? {
      output.Extend(finding.memberPath.value);
    } else {
      assert output.bytes == output.bytes + [];
    }
    Assoc4(old(output.bytes), FindingFixedBytes(finding), finding.code, finding.detail, PathBytes(finding.memberPath));
  }

  method AppendEntries(output: Output, manifest: seq<ManifestEntry>)
    modifies output
    ensures output.bytes == old(output.bytes) + Concat(EntryBytes, manifest)
  {
    hide EntryBytes;
    for i := 0 to |manifest|
      invariant output.bytes == old(output.bytes) + Concat(EntryBytes, manifest[..i])
    {
      AppendEntry(output, manifest[i]);
      ConcatAppend(EntryBytes, manifest[..i], manifest[i]);
      assert manifest[..i + 1] == manifest[..i] + [manifest[i]];
    }
    assert manifest[..|manifest|] == manifest;
  }

  method AppendFindings(output: Output, findings: seq<ProtocolFinding>)
    modifies output
    ensures output.bytes == old(output.bytes) + Concat(FindingBytes, findings)
  {
    hide FindingBytes;
    for i := 0 to |findings|
      invariant output.bytes == old(output.bytes) + Concat(FindingBytes, findings[..i])
    {
      AppendFinding(output, findings[i]);
      ConcatAppend(FindingBytes, findings[..i], findings[i]);
      assert findings[..i + 1] == findings[..i] + [findings[i]];
    }
    assert findings[..|findings|] == findings;
  }

  lemma PayloadAppended(header: seq<byte>, r: WorkerResult)
    ensures header + HeadBytes(HeadOf(r)) + Concat(EntryBytes, r.manifest) + Concat(FindingBytes, r.findings) ==
            header + ResultPayload(r)
  {
    hide HeadBytes, Concat;
    Assoc4(header, HeadBytes(HeadOf(r)), Concat(EntryBytes, r.manifest), Concat(FindingBytes, r.findings), []);
    assert Concat(FindingBytes, r.findings) + [] == Concat(FindingBytes, r.findings);
  }

  /** `encode_result`: every valid result that fits the wire limit, and nothing else, becomes its frame. */
  method EncodeResult(r: WorkerResult) returns (frame: Result<seq<byte>, ProtocolError>)
    ensures frame.Ok? <==> Encodable(r)
    ensures frame.Ok? ==> frame.value == FrameOf(r) && |frame.value| == FRAME_HEADER_BYTES + |ResultPayload(r)|
    ensures frame.Err? ==> frame.error.offset == 0
    ensures frame.Err? && ValidResult(r) ==> frame.error.kind == LimitExceeded
  {
    hide ValidResult, HeadBytes, Frame, Concat;
    var _ :- ValidateResult(r);
    var payloadLen := PayloadLen(r);
    if FRAME_HEADER_BYTES + payloadLen > MAX_FRAME_BYTES {
      return Err(ProtocolError(LimitExceeded, 0));
    }
    var output := new Output();
    output.Header(FRAME_KIND_RESULT, payloadLen);
    ghost var header := output.bytes;
    AppendHead(output, r);
    AppendEntries(output, r.manifest);
    AppendFindings(output, r.findings);
    PayloadAppended(header, r);
    FrameLayout([], FRAME_KIND_RESULT, ResultPayload(r));
    return Ok(output.bytes);
  }
}
