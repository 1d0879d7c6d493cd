/** Decoding the finding records of a result. */
module FindingDecoder {
  import opened Prelude
  import opened Wire
  import opened WireStrings
  import opened ResultFrame
  import Utf8

  datatype FindingFixed = FindingFixed(codeLen: u16, detailLen: u16, pathLen: u16, severity: FindingSeverity)

  predicate LengthsFit(codeLen: u16, detailLen: u16, pathLen: u16) {
    1 <= codeLen <= MAX_FINDING_CODE_BYTES && detailLen <= MAX_FINDING_DETAIL_BYTES
    && (pathLen != NO_PATH ==> pathLen <= MAX_PATH_BYTES)
  }

  predicate LengthsInRange(f: FindingFixed) {
    LengthsFit(f.codeLen, f.detailLen, f.pathLen)
  }

  predicate FixedAt(s: seq<byte>, at: nat, f: FindingFixed) {
    && at + FINDING_FIXED_BYTES <= |s|
    && LeU16(s, at) == f.codeLen && LeU16(s, at + 2) == f.detailLen && LeU16(s, at + 4) == f.pathLen
    && s[at + 6] == SeverityCode(f.severity) && s[at + 7] == 0
  }

  /** The first field of a finding's eight bytes at fault, where an offset is counted in `s` from `base`. */
  function FixedFault(s: seq<byte>, at: nat, base: nat): Option<ProtocolError> {
    if at + 2 > |s| then Some(ProtocolError(Truncated, base + at))
    else if at + 4 > |s| then Some(ProtocolError(Truncated, base + at + 2))
    else if at + 6 > |s| then Some(ProtocolError(Truncated, base + at + 4))
    else if !LengthsFit(LeU16(s, at), LeU16(s, at + 2), LeU16(s, at + 4)) then
      Some(ProtocolError(LimitExceeded, base + at + 6))
    else if at + 7 > |s| then Some(ProtocolError(Truncated, base + at + 6))
    else if s[at + 6] != 1 && s[at + 6] != 2 then Some(ProtocolError(InvalidEnum, base + at + 7))
    else if at + 8 > |s| then Some(ProtocolError(Truncated, base + at + 7))
    else if s[at + 7] != 0 then Some(ProtocolError(ReservedNonZero, base + at + 8))
    else None
  }

  /** The eight bytes before a finding's strings. */
  method DecodeFixed(cursor: Cursor) returns (r: Result<FindingFixed, ProtocolError>)
    requires cursor.Valid()
    modifies cursor
    ensures cursor.Valid()
    ensures forall f :: LengthsInRange(f) && FixedAt(cursor.input, old(cursor.position), f) <==> r == Ok(f)
    ensures r.Ok? ==> cursor.position == old(cursor.position) + FINDING_FIXED_BYTES
    ensures r.Err? ==> cursor.base <= r.error.offset <= cursor.base + |cursor.input|
    ensures FixedFault(cursor.input, old(cursor.position), cursor.base) == if r.Err? then Some(r.error) else None
  {
    hide LeU16;
    var codeLen :- cursor.U16();
    var detailLen :- cursor.U16();
    var pathLen :- cursor.U16();
    if codeLen == 0 || codeLen > MAX_FINDING_CODE_BYTES {
      return Err(cursor.Error(LimitExceeded));
    }
    if detailLen > MAX_FINDING_DETAIL_BYTES {
      return Err(cursor.Error(LimitExceeded));
    }
    if pathLen != NO_PATH && pathLen > MAX_PATH_BYTES {
      return Err(cursor.Error(LimitExceeded));
    }
    var severityByte :- cursor.U8();
    var severity;
    match severityByte {
      case 1 => severity := Warning;
      case 2 => severity := FindingSeverity.Error;
      case _ => return Err(cursor.Error(InvalidEnum));
    }
    var reserved :- cursor.U8();
    if reserved != 0 {
      return Err(cursor.Error(ReservedNonZero));
    }
    return Ok(FindingFixed(codeLen, detailLen, pathLen, severity));
  }

  function FixedOf(f: ProtocolFinding): FindingFixed {
    FindingFixed(|f.code| % 0x1_0000, |f.detail| % 0x1_0000, PathLen(f.memberPath), f.severity)
  }

  /** The fixed part announces exactly these strings. */
  predicate Announces(fixed: FindingFixed, f: ProtocolFinding) {
    && f.severity == fixed.severity
    && |f.code| == fixed.codeLen && |f.detail| == fixed.detailLen
    && PathAnnounced(fixed.pathLen, f.memberPath)
  }

  predicate PathAnnounced(pathLen: u16, path: Option<Text>) {
    (path.None? <==> pathLen == NO_PATH) && (path.Some? ==> |path.value| == pathLen)
  }

  predicate StringsAt(s: seq<byte>, at: nat, f: ProtocolFinding) {
    && Occurs(s, at, f.code)
    && Occurs(s, at + |f.code|, f.detail)
    && Occurs(s, at + |f.code| + |f.detail|, PathBytes(f.memberPath))
  }

  lemma FindingParts(s: seq<byte>, at: nat, f: ProtocolFinding)
    requires FindingOk(f)
    ensures LengthsInRange(FixedOf(f)) && forall fixed :: Announces(fixed, f) <==> fixed == FixedOf(f)
    ensures FindingAt(s, at, f) <==> FixedAt(s, at, FixedOf(f)) && StringsAt(s, at + FINDING_FIXED_BYTES, f)
  {
    hide LeU16, Occurs;
  }

  /** What keeps the strings of these lengths from standing at `at`: the first one at fault. */
  function StringsFault(s: seq<byte>, at: nat, codeLen: nat, detailLen: nat, pathLen: nat, base: nat)
    : Option<ProtocolError>
  {
    var code, detail := StringFault(s, at, codeLen, FindingCode), StringFault(s, at + codeLen, detailLen, Detail);
    var path := if pathLen == NO_PATH then None else StringFault(s, at + codeLen + detailLen, pathLen, PathString);
    if code.Some? then Some(ProtocolError(code.value, base + at))
    else if detail.Some? then Some(ProtocolError(detail.value, base + at + codeLen))
    else if path.Some? then Some(ProtocolError(path.value, base + at + codeLen + detailLen))
    else None
  }

  /** What keeps the bytes at `at` from being a finding's record. */
  function FindingFault(s: seq<byte>, at: nat, base: nat): Option<ProtocolError> {
    var fixed := FixedFault(s, at, base);
    if fixed.Some? then fixed
    else StringsFault(s, at + FINDING_FIXED_BYTES, LeU16(s, at), LeU16(s, at + 2), LeU16(s, at + 4), base)
  }

  method DecodeMemberPath(cursor: Cursor, pathLen: u16) returns (r: Result<Option<Text>, ProtocolError>)
    requires cursor.Valid()
    modifies cursor
    ensures cursor.Valid()
    ensures forall p: Option<Text> ::
      PathAnnounced(pathLen, p) && (p.Some? ==> ValidPath(p.value))
      && Occurs(cursor.input, old(cursor.position), PathBytes(p))
      <==> r == Ok(p)
    ensures r.Ok? ==> cursor.position == old(cursor.position) + |PathBytes(r.value)|
    ensures r.Err? ==> pathLen != NO_PATH
    ensures r.Err? ==> r.error.offset == cursor.base + old(cursor.position) <= cursor.base + |cursor.input|
    ensures pathLen != NO_PATH ==>
              StringFault(cursor.input, old(cursor.position), pathLen, PathString) ==
              if r.Err? then Some(r.error.kind) else None
  {
    hide ValidPath, StringFault;
    if pathLen == NO_PATH {
      return Ok(None);
    }
    var path :- BoundedString(cursor, pathLen, PathString);
    return Ok(Some(path));
  }

  /** The strings that the fixed part announces. */
  method DecodeStrings(cursor: Cursor, fixed: FindingFixed) returns (r: Result<ProtocolFinding, ProtocolError>)
    requires cursor.Valid()
    modifies cursor
    ensures cursor.Valid()
    ensures forall f ::
              FindingOk(f) && Announces(fixed, f) && StringsAt(cursor.input, old(cursor.position), f) <==> r == Ok(f)
    ensures r.Ok? ==>
            cursor.position ==
            old(cursor.position) + |r.value.code| + |r.value.detail| + |PathBytes(r.value.memberPath)|
    ensures r.Err? ==> cursor.base <= r.error.offset <= cursor.base + |cursor.input|
    ensures StringsFault(cursor.input, old(cursor.position), fixed.codeLen, fixed.detailLen, fixed.pathLen, cursor.base)
         == if r.Err? then Some(r.error) else None
  {
    hide ValidPath, ValidCode, ValidDetail, Occurs, PathBytes, PathAnnounced, Utf8.Valid, Utf8.Decode, StringFault;
    var code :- BoundedString(cursor, fixed.codeLen, FindingCode);
    var detail :- BoundedString(cursor, fixed.detailLen, Detail);
    var memberPath :- DecodeMemberPath(cursor, fixed.pathLen);
    return Ok(ProtocolFinding(fixed.severity, code, detail, memberPath));
  }

  lemma FixedLengths(s: seq<byte>, at: nat, fixed: FindingFixed, base: nat)
    requires FixedAt(s, at, fixed) && FixedFault(s, at, base).None?
    ensures FindingFault(s, at, base) ==
            StringsFault(s, at + FINDING_FIXED_BYTES, fixed.codeLen, fixed.detailLen, fixed.pathLen, base)
  {
    hide LeU16, StringsFault;
  }

  lemma FixedFaultFirst(s: seq<byte>, at: nat, base: nat)
    ensures FixedFault(s, at, base).Some? ==> FindingFault(s, at, base) == FixedFault(s, at, base)
  {
    hide LeU16, StringsFault;
  }

  /** One finding's record. */
  method DecodeFinding(cursor: Cursor) returns (r: Result<ProtocolFinding, ProtocolError>)
    requires cursor.Valid()
    modifies cursor
    ensures cursor.Valid()
    ensures forall f :: FindingOk(f) && FindingAt(cursor.input, old(cursor.position), f) <==> r == Ok(f)
    ensures r.Ok? ==> cursor.position == old(cursor.position) + |FindingBytes(r.value)|
    ensures r.Err? ==> cursor.base <= r.error.offset <= cursor.base + |cursor.input|
    ensures FindingFault(cursor.input, old(cursor.position), cursor.base) == if r.Err? then Some(r.error) else None
  {
    ghost var s, at := cursor.input, cursor.position;
    forall f | FindingOk(f)
      ensures LengthsInRange(FixedOf(f)) && forall fixed :: Announces(fixed, f) <==> fixed == FixedOf(f)
      ensures FindingAt(s, at, f) <==> FixedAt(s, at, FixedOf(f)) && StringsAt(s, at + FINDING_FIXED_BYTES, f)
    {
      FindingParts(s, at, f);
    }
    hide *;
    FixedFaultFirst(s, at, cursor.base);
    var fixed := DecodeFixed(cursor);
    if fixed.Err? {
      return Err(fixed.error);
    }
    FixedLengths(s, at, fixed.value, cursor.base);
    var finding := DecodeStrings(cursor, fixed.value);
    if finding.Err? {
      return Err(finding.error);
    }
    FindingLength(finding.value);
    return Ok(finding.value);
  }

  /** `count` well-formed findings written from `at` on. */
  predicate FindingsAt(s: seq<byte>, at: nat, count: nat, findings: seq<ProtocolFinding>) {
    |findings| == count && FindingsOk(findings) && Occurs(s, at, Concat(FindingBytes, findings))
  }

  lemma FindingOfList(s: seq<byte>, at: nat, count: nat, findings: seq<ProtocolFinding>, i: nat)
    requires i < count && FindingsAt(s, at, count, findings)
    ensures |findings| == count && FindingOk(findings[i])
    ensures FindingAt(s, at + |Concat(FindingBytes, findings[..i])|, findings[i])
  {
    assert FindingOk(findings[i]);
    hide FindingAt, FindingBytes, FindingOk, Concat, Occurs;
    RecordOccurs(FindingBytes, s, at, findings, i);
    FindingLayout(s, at + |Concat(FindingBytes, findings[..i])|, findings[i]);
  }

  lemma FindingsRoom(s: seq<byte>, at: nat, count: nat, findings: seq<ProtocolFinding>)
    requires FindingsAt(s, at, count, findings)
    ensures at + count * (FINDING_FIXED_BYTES + 1) <= |s|
  {
    forall i | 0 <= i < |findings| ensures |FindingBytes(findings[i])| >= FINDING_FIXED_BYTES + 1 {
      assert FindingOk(findings[i]);
      FindingLength(findings[i]);
    }
    ConcatLength(FindingBytes, findings, FINDING_FIXED_BYTES + 1);
  }

  /** Every well-formed list at `at` starts with these findings. */
  ghost predicate Forced(s: seq<byte>, at: nat, count: nat, done: seq<ProtocolFinding>) {
    && |done| <= count
    && forall m :: FindingsAt(s, at, count, m) ==> m[..|done|] == done
  }

  predicate MayFollow(s: seq<byte>, here: nat, f: ProtocolFinding) {
    FindingOk(f) && FindingAt(s, here, f)
  }

  lemma NextFinding(s: seq<byte>, at: nat, count: nat, done: seq<ProtocolFinding>, m: seq<ProtocolFinding>)
    requires Forced(s, at, count, done) && |done| < count && FindingsAt(s, at, count, m)
    ensures |m| == count && m[..|done|] == done && MayFollow(s, at + |Concat(FindingBytes, done)|, m[|done|])
  {
    hide FindingsAt, FindingAt, FindingOk, Concat, FindingBytes;
    FindingOfList(s, at, count, m, |done|);
    assert m[..|done|] == done;
  }

  lemma NothingFollows(s: seq<byte>, at: nat, count: nat, done: seq<ProtocolFinding>, here: nat)
    requires Forced(s, at, count, done) && |done| < count && here == at + |Concat(FindingBytes, done)|
    requires forall f :: !MayFollow(s, here, f)
    ensures forall m :: !FindingsAt(s, at, count, m)
  {
    hide *;
    forall m ensures !FindingsAt(s, at, count, m) {
      if FindingsAt(s, at, count, m) { NextFinding(s, at, count, done, m); }
    }
  }

  lemma OneFollows(s: seq<byte>, at: nat, count: nat, done: seq<ProtocolFinding>, here: nat, finding: ProtocolFinding)
    requires Forced(s, at, count, done) && |done| < count && here == at + |Concat(FindingBytes, done)|
    requires forall f :: MayFollow(s, here, f) ==> f == finding
    ensures Forced(s, at, count, done + [finding])
  {
    hide FindingsAt, FindingOk, FindingAt, FindingBytes, MayFollow, Concat;
    forall m | FindingsAt(s, at, count, m) ensures |m| == count && m[..|done| + 1] == done + [finding] {
      NextFinding(s, at, count, done, m);
      assert m[..|done| + 1] == m[..|done|] + [m[|done|]];
    }
  }

  lemma PushFinding(s: seq<byte>, at: nat, done: seq<ProtocolFinding>, finding: ProtocolFinding)
    requires FindingsOk(done) && Occurs(s, at, Concat(FindingBytes, done))
    requires MayFollow(s, at + |Concat(FindingBytes, done)|, finding)
    ensures FindingsOk(done + [finding]) && Occurs(s, at, Concat(FindingBytes, done + [finding]))
    ensures |Concat(FindingBytes, done + [finding])| == |Concat(FindingBytes, done)| + |FindingBytes(finding)|
  {
    hide FindingAt, FindingBytes, FindingOk, Occurs;
    FindingLayout(s, at + |Concat(FindingBytes, done)|, finding);
    ConcatAppend(FindingBytes, done, finding);
    OccursAppend(s, at, Concat(FindingBytes, done), FindingBytes(finding));
  }

  /** No room for so many findings, or a fault behind well-formed ones. */
  ghost predicate FindingsFault(s: seq<byte>, at: nat, count: nat, base: nat, error: ProtocolError) {
    if at + count * (FINDING_FIXED_BYTES + 1) > |s| then error == ProtocolError(CountInconsistent, base + at)
    else exists done :: && |done| < count && FindingsAt(s, at, |done|, done)
                        && FindingFault(s, at + |Concat(FindingBytes, done)|, base) == Some(error)
  }

  lemma FaultBehind(s: seq<byte>, at: nat, count: nat, base: nat, done: seq<ProtocolFinding>, error: ProtocolError)
    requires at + count * (FINDING_FIXED_BYTES + 1) <= |s| && |done| < count
    requires FindingsOk(done) && Occurs(s, at, Concat(FindingBytes, done))
    requires FindingFault(s, at + |Concat(FindingBytes, done)|, base) == Some(error)
    ensures FindingsFault(s, at, count, base, error)
  {
    hide FindingFault, FindingsOk, Occurs, Concat;
    assert FindingsAt(s, at, |done|, done);
  }

  method DecodeFindings(cursor: Cursor, count: nat) returns (r: Result<seq<ProtocolFinding>, ProtocolError>)
    requires cursor.Valid()
    modifies cursor
    ensures cursor.Valid()
    ensures forall m :: FindingsAt(cursor.input, old(cursor.position), count, m) <==> r == Ok(m)
    ensures r.Ok? ==> cursor.position == old(cursor.position) + |Concat(FindingBytes, r.value)|
    ensures r.Err? ==> cursor.base <= r.error.offset <= cursor.base + |cursor.input|
    ensures r.Err? ==> FindingsFault(cursor.input, old(cursor.position), count, cursor.base, r.error)
  {
    hide FindingOk, FindingFault, FindingBytes;
    ghost var s, at := cursor.input, cursor.position;
    if count * (FINDING_FIXED_BYTES + 1) > cursor.Remaining() {
      forall m ensures !FindingsAt(s, at, count, m) {
        if FindingsAt(s, at, count, m) { FindingsRoom(s, at, count, m); }
      }
      return Err(cursor.Error(CountInconsistent));
    }
    var findings: seq<ProtocolFinding> := [];
    while |findings| < count
      invariant cursor.Valid() && Forced(s, at, count, findings)
      invariant FindingsOk(findings)
      invariant cursor.position == at + |Concat(FindingBytes, findings)|
      invariant Occurs(s, at, Concat(FindingBytes, findings))
      decreases count - |findings|
    {
      hide *;
      ghost var here := cursor.position;
      var finding := DecodeFinding(cursor);
      if finding.Err? {
        NothingFollows(s, at, count, findings, here);
        FaultBehind(s, at, count, cursor.base, findings, finding.error);
        return Err(finding.error);
      }
      PushFinding(s, at, findings, finding.value);
      OneFollows(s, at, count, findings, here, finding.value);
      findings := findings + [finding.value];
    }
    assert FindingsAt(s, at, count, findings);
    forall m | FindingsAt(s, at, count, m) ensures m == findings {
      assert m[..|findings|] == findings == m;
    }
    return Ok(findings);
  }
}
