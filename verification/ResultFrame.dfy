/** The result frame: what a worker claims, and its variable-length payload. */
module ResultFrame {
  import opened Prelude
  import opened Wire
  import opened WireStrings
  import Lex
  import Paths

  datatype WorkerStatus = Complete | Rejected | Failed
  datatype FindingSeverity = Warning | Error

  datatype ManifestEntry = ManifestEntry(path: Text, kind: Paths.Kind, size: u64, sha256: Digest)

  datatype ProtocolFinding = ProtocolFinding(severity: FindingSeverity, code: Text, detail: Text,
          memberPath: Option<Text>)

  datatype WorkerResult = WorkerResult(
    operationId: OperationId,
    status: WorkerStatus,
    interpretationProfileSha256: Digest,
    layoutRoot: Option<Digest>,
    contentRoot: Option<Digest>,
    manifest: seq<ManifestEntry>,
    findings: seq<ProtocolFinding>)

  const RESULT_FIXED_PAYLOAD_BYTES: nat := 124
  const MAX_MANIFEST_MEMBERS: nat := 10_000
  const MAX_FINDINGS: nat := 10_000
  const MANIFEST_ENTRY_FIXED_BYTES: nat := 44
  const FINDING_FIXED_BYTES: nat := 8
  const NO_PATH: u16 := 0xFFFF

  // ---- Lists of records ----

  /** The records' encodings, one after another. */
  function Concat<T>(encode: T -> seq<byte>, items: seq<T>): seq<byte> {
    if items == [] then [] else encode(items[0]) + Concat(encode, items[1..])
  }

  lemma {:induction false} ConcatSplit<T>(encode: T -> seq<byte>, a: seq<T>, b: seq<T>)
    ensures Concat(encode, a + b) == Concat(encode, a) + Concat(encode, b)
  {
    if a == [] {
      assert a + b == b;
    } else {
      assert (a + b)[1..] == a[1..] + b;
      ConcatSplit(encode, a[1..], b);
    }
  }

  lemma ConcatAppend<T>(encode: T -> seq<byte>, items: seq<T>, x: T)
    ensures Concat(encode, items + [x]) == Concat(encode, items) + encode(x)
  {
    ConcatSplit(encode, items, [x]);
    assert Concat(encode, [x]) == encode(x) + Concat(encode, []);
  }

  /** A record of an encoded list starts where the records before it end. */
  lemma RecordOccurs<T>(encode: T -> seq<byte>, s: seq<byte>, at: nat, items: seq<T>, i: nat)
    requires i < |items| && Occurs(s, at, Concat(encode, items))
    ensures Occurs(s, at + |Concat(encode, items[..i])|, encode(items[i]))
  {
    assert items == items[..i] + items[i..];
    ConcatSplit(encode, items[..i], items[i..]);
    OccursAppend(s, at, Concat(encode, items[..i]), Concat(encode, items[i..]));
    OccursAppend(s, at + |Concat(encode, items[..i])|, encode(items[i]), Concat(encode, items[i..][1..]));
  }

  lemma {:induction false} ConcatLength<T>(encode: T -> seq<byte>, items: seq<T>, least: nat)
    requires forall i :: 0 <= i < |items| ==> |encode(items[i])| >= least
    ensures |Concat(encode, items)| >= |items| * least
  {
    if items != [] {
      ConcatLength(encode, items[1..], least);
      assert |items| * least == least + (|items| - 1) * least;
    }
  }

  // ---- Manifest entries ----

  function KindCode(kind: Paths.Kind): byte {
    match kind
    case File => 1
    case Directory => 2
  }

  /** An entry's record; the length field is the truncating cast to 16 bits. */
  function EntryBytes(e: ManifestEntry): seq<byte> {
    Le16(|e.path| % 0x1_0000) + ([KindCode(e.kind), 0] + (Le64(e.size) + (e.sha256 + e.path)))
  }

  predicate EntryAt(s: seq<byte>, at: nat, e: ManifestEntry) {
    && at + MANIFEST_ENTRY_FIXED_BYTES + |e.path| <= |s|
    && LeU16(s, at) == |e.path| % 0x1_0000
    && s[at + 2] == KindCode(e.kind) && s[at + 3] == 0
    && LeU64(s, at + 4) == e.size
    && s[at + 12..at + 44] == e.sha256
    && Occurs(s, at + 44, e.path)
  }

  lemma EntryLength(e: ManifestEntry)
    ensures |EntryBytes(e)| == MANIFEST_ENTRY_FIXED_BYTES + |e.path|
  {
  }

  lemma EntryLayout(s: seq<byte>, at: nat, e: ManifestEntry)
    ensures Occurs(s, at, EntryBytes(e)) <==> EntryAt(s, at, e)
  {
    var len := |e.path| % 0x1_0000;
    var tail := [KindCode(e.kind), 0];
    assert |Le16(len)| == 2 && |Le64(e.size)| == 8;
    assert Occurs(s, at + 2, tail) <==> at + 4 <= |s| && s[at + 2] == tail[0] && s[at + 3] == 0 by {
      if at + 4 <= |s| { assert s[at + 2..at + 4] == [s[at + 2], s[at + 3]]; }
    }
    assert Occurs(s, at + 12, e.sha256) <==> at + 44 <= |s| && s[at + 12..at + 44] == e.sha256;
    hide Le16, Le64, LeU16, LeU64;
    OccursAppend4(s, at, Le16(len), tail, Le64(e.size), e.sha256 + e.path);
    OccursAppend(s, at + 12, e.sha256, e.path);
    Le16Occurs(s, at, len);
    Le64Occurs(s, at + 4, e.size);
  }

  /** `validate_result` of one entry: a canonical path, and no content evidence for a directory. */
  predicate EntryOk(e: ManifestEntry) {
    ValidPath(e.path) && (e.kind.Directory? ==> e.size == 0 && e.sha256 == ZERO_DIGEST)
  }

  predicate PathsAscend(manifest: seq<ManifestEntry>) {
    forall i :: 1 <= i < |manifest| ==> Lex.Less(manifest[i - 1].path, manifest[i].path)
  }

  predicate ManifestOk(manifest: seq<ManifestEntry>) {
    PathsAscend(manifest) && forall i :: 0 <= i < |manifest| ==> EntryOk(manifest[i])
  }

  // ---- Findings ----

  function SeverityCode(severity: FindingSeverity): byte {
    match severity
    case Warning => 1
    case Error => 2
  }

  function PathLen(path: Option<Text>): u16 {
    if path.Some? then |path.value| % 0x1_0000 else NO_PATH
  }

  function PathBytes(path: Option<Text>): seq<byte> {
    if path.Some? then path.value else []
  }

  function FindingFixedBytes(f: ProtocolFinding): seq<byte> {
    Le16(|f.code| % 0x1_0000) +
    (Le16(|f.detail| % 0x1_0000) + (Le16(PathLen(f.memberPath)) + [SeverityCode(f.severity), 0]))
  }

  function FindingBytes(f: ProtocolFinding): seq<byte> {
    FindingFixedBytes(f) + (f.code + (f.detail + PathBytes(f.memberPath)))
  }

  predicate FindingFixedAt(s: seq<byte>, at: nat, f: ProtocolFinding) {
    && at + FINDING_FIXED_BYTES <= |s|
    && LeU16(s, at) == |f.code| % 0x1_0000
    && LeU16(s, at + 2) == |f.detail| % 0x1_0000
    && LeU16(s, at + 4) == PathLen(f.memberPath)
    && s[at + 6] == SeverityCode(f.severity) && s[at + 7] == 0
  }

  predicate FindingAt(s: seq<byte>, at: nat, f: ProtocolFinding) {
    && FindingFixedAt(s, at, f)
    && Occurs(s, at + 8, f.code)
    && Occurs(s, at + 8 + |f.code|, f.detail)
    && Occurs(s, at + 8 + |f.code| + |f.detail|, PathBytes(f.memberPath))
  }

  lemma FindingLength(f: ProtocolFinding)
    ensures |FindingBytes(f)| == FINDING_FIXED_BYTES + |f.code| + |f.detail| + |PathBytes(f.memberPath)|
  {
  }

  lemma FindingLayout(s: seq<byte>, at: nat, f: ProtocolFinding)
    ensures Occurs(s, at, FindingBytes(f)) <==> FindingAt(s, at, f)
  {
    FindingFixedLayout(s, at, f);
    assert |FindingFixedBytes(f)| == 8;
    hide FindingFixedBytes, FindingFixedAt;
    OccursAppend4(s, at, FindingFixedBytes(f), f.code, f.detail, PathBytes(f.memberPath));
  }

  lemma FindingFixedLayout(s: seq<byte>, at: nat, f: ProtocolFinding)
    ensures Occurs(s, at, FindingFixedBytes(f)) <==> FindingFixedAt(s, at, f)
  {
    var code: u16, detail: u16, path := |f.code| % 0x1_0000, |f.detail| % 0x1_0000, PathLen(f.memberPath);
    var tail := [SeverityCode(f.severity), 0];
    assert |Le16(code)| == |Le16(detail)| == |Le16(path)| == 2;
    assert Occurs(s, at + 6, tail) <==> at + 8 <= |s| && s[at + 6] == tail[0] && s[at + 7] == 0 by {
      if at + 8 <= |s| { assert s[at + 6..at + 8] == [s[at + 6], s[at + 7]]; }
    }
    hide Le16, LeU16;
    OccursAppend4(s, at, Le16(code), Le16(detail), Le16(path), tail);
    Le16Occurs(s, at, code);
    Le16Occurs(s, at + 2, detail);
    Le16Occurs(s, at + 4, path);
  }

  predicate FindingOk(f: ProtocolFinding) {
    ValidCode(f.code) && ValidDetail(f.detail) && (f.memberPath.Some? ==> ValidPath(f.memberPath.value))
  }

  predicate FindingsOk(findings: seq<ProtocolFinding>) {
    forall i :: 0 <= i < |findings| ==> FindingOk(findings[i])
  }

  // ---- The fixed head ----

  datatype ResultHead = ResultHead(
    operationId: OperationId,
    status: WorkerStatus,
    memberCount: u32,
    findingCount: u32,
    interpretationProfileSha256: Digest,
    layoutRoot: Option<Digest>,
    contentRoot: Option<Digest>)

  function HeadOf(r: WorkerResult): ResultHead {
    ResultHead(r.operationId, r.status, |r.manifest| % 0x1_0000_0000, |r.findings| % 0x1_0000_0000,
               r.interpretationProfileSha256, r.layoutRoot, r.contentRoot)
  }

  function StatusCode(status: WorkerStatus): byte {
    match status
    case Complete => 1
    case Rejected => 2
    case Failed => 3
  }

  /** Bit 0: a layout root is present. Bit 1: a content root is present. */
  function RootFlags(layout: Option<Digest>, content: Option<Digest>): byte {
    (if layout.Some? then 1 else 0) + (if content.Some? then 2 else 0)
  }

  function RootBytes(root: Option<Digest>): Digest {
    if root.Some? then root.value else ZERO_DIGEST
  }

  function HeadCounts(h: ResultHead): seq<byte> {
    [StatusCode(h.status), RootFlags(h.layoutRoot, h.contentRoot)] +
    (Le16(0) + (Le32(h.memberCount) + Le32(h.findingCount)))
  }

  function HeadBytes(h: ResultHead): (b: seq<byte>)
    ensures |b| == RESULT_FIXED_PAYLOAD_BYTES
  {
    h.operationId +
    (HeadCounts(h) + (h.interpretationProfileSha256 + (RootBytes(h.layoutRoot) + RootBytes(h.contentRoot))))
  }

  predicate HeadAt(s: seq<byte>, h: ResultHead) {
    && |s| >= RESULT_FIXED_PAYLOAD_BYTES
    && s[..16] == h.operationId
    && s[16] == StatusCode(h.status) && s[17] == RootFlags(h.layoutRoot, h.contentRoot)
    && LeU16(s, 18) == 0 && LeU32(s, 20) == h.memberCount && LeU32(s, 24) == h.findingCount
    && s[28..60] == h.interpretationProfileSha256
    && s[60..92] == RootBytes(h.layoutRoot) && s[92..124] == RootBytes(h.contentRoot)
  }

  lemma HeadCountsLayout(s: seq<byte>, h: ResultHead)
    ensures Occurs(s, 16, HeadCounts(h)) <==>
            |s| >= 28 && s[16] == StatusCode(h.status) && s[17] == RootFlags(h.layoutRoot, h.contentRoot)
            && LeU16(s, 18) == 0 && LeU32(s, 20) == h.memberCount && LeU32(s, 24) == h.findingCount
  {
    var lead := [StatusCode(h.status), RootFlags(h.layoutRoot, h.contentRoot)];
    assert |Le16(0)| == 2 && |Le32(h.memberCount)| == 4 && |Le32(h.findingCount)| == 4;
    assert Occurs(s, 16, lead) <==> 18 <= |s| && s[16] == lead[0] && s[17] == lead[1] by {
      if 18 <= |s| { assert s[16..18] == [s[16], s[17]]; }
    }
    hide Le16, Le32, LeU16, LeU32;
    OccursAppend4(s, 16, lead, Le16(0), Le32(h.memberCount), Le32(h.findingCount));
    Le16Occurs(s, 18, 0);
    Le32Occurs(s, 20, h.memberCount);
    Le32Occurs(s, 24, h.findingCount);
  }

  lemma HeadLayout(s: seq<byte>, h: ResultHead)
    ensures Occurs(s, 0, HeadBytes(h)) <==> HeadAt(s, h)
  {
    assert |HeadCounts(h)| == 12;
    HeadCountsLayout(s, h);
    hide HeadCounts, LeU16, LeU32;
    OccursAppend4(s, 0, h.operationId, HeadCounts(h), h.interpretationProfileSha256,
                  RootBytes(h.layoutRoot) + RootBytes(h.contentRoot));
    OccursAppend(s, 60, RootBytes(h.layoutRoot), RootBytes(h.contentRoot));
  }

  // ---- The whole result ----

  function ResultPayload(r: WorkerResult): seq<byte> {
    HeadBytes(HeadOf(r)) + (Concat(EntryBytes, r.manifest) + Concat(FindingBytes, r.findings))
  }

  function FrameOf(r: WorkerResult): seq<byte>
    requires |ResultPayload(r)| <= U32_MAX
  {
    Frame(FRAME_KIND_RESULT, ResultPayload(r))
  }

  predicate HasErrorFinding(findings: seq<ProtocolFinding>) {
    exists i :: 0 <= i < |findings| && findings[i].severity.Error?
  }

  /** Complete results have both roots and no error; the others have no manifest, no content root and an error. */
  predicate StatusCoherent(r: WorkerResult) {
    if r.status.Complete? then
      r.layoutRoot.Some? && r.contentRoot.Some? && !HasErrorFinding(r.findings)
    else
      r.manifest == [] && r.contentRoot.None? && HasErrorFinding(r.findings)
  }

  function Shapes(manifest: seq<ManifestEntry>): (shapes: seq<Paths.Entry>)
    ensures |shapes| == |manifest|
    ensures forall i :: 0 <= i < |manifest| ==> shapes[i] == Paths.Entry(manifest[i].path, manifest[i].kind)
  {
    seq(|manifest|, i requires 0 <= i < |manifest| => Paths.Entry(manifest[i].path, manifest[i].kind))
  }

  predicate ValidResult(r: WorkerResult) {
    && r.operationId != ZERO_ID
    && |r.manifest| <= MAX_MANIFEST_MEMBERS && |r.findings| <= MAX_FINDINGS
    && StatusCoherent(r)
    && ManifestOk(r.manifest)
    && Paths.NoFileAbove(Shapes(r.manifest))
    && FindingsOk(r.findings)
  }

  predicate Encodable(r: WorkerResult) {
    ValidResult(r) && FRAME_HEADER_BYTES + |ResultPayload(r)| <= MAX_FRAME_BYTES
  }

  /** Comparing neighbours orders the whole list. */
  lemma {:induction false} AscendingIsOrdered(manifest: seq<ManifestEntry>)
    ensures PathsAscend(manifest) <==> Paths.Ordered(Shapes(manifest))
  {
    if PathsAscend(manifest) {
      forall i, j | 0 <= i < j < |manifest| ensures Lex.Less(manifest[i].path, manifest[j].path) {
        AscendingChain(manifest, i, j);
      }
    }
    if Paths.Ordered(Shapes(manifest)) {
      forall i | 1 <= i < |manifest| ensures Lex.Less(manifest[i - 1].path, manifest[i].path) {
        assert Lex.Less(Shapes(manifest)[i - 1].path, Shapes(manifest)[i].path);
      }
    }
  }

  lemma {:induction false} AscendingChain(manifest: seq<ManifestEntry>, i: nat, j: nat)
    requires PathsAscend(manifest) && i < j < |manifest|
    ensures Lex.Less(manifest[i].path, manifest[j].path)
    decreases j
  {
    if i + 1 < j {
      AscendingChain(manifest, i, j - 1);
      Lex.LessTransitive(manifest[i].path, manifest[j - 1].path, manifest[j].path);
    }
  }

  /** The manifest of a valid result is a tree: distinct paths, and no file above any other object. */
  lemma ValidManifestIsATree(r: WorkerResult)
    requires ValidResult(r)
    ensures Paths.PairwiseCompatible(Shapes(r.manifest))
  {
    AscendingIsOrdered(r.manifest);
    Paths.OrderedTopology(Shapes(r.manifest));
  }
}
