/** Old-GNU long-name covering audit: the source bytes alone dictate carriers, members and effective names. */
module GnuLongName {
  import opened Prelude
  import opened TarHeader
  import opened Intervals
  import Utf8

  const MAX_CARRIERS := 1024
  const MAX_PATH_BYTES := 8191

  datatype Carrier = Carrier(
    rawName: seq<byte>,
    pathBytes: seq<byte>,
    header: ByteRange,
    payload: ByteRange,
    path: ByteRange,
    padding: ByteRange,
    mode: u32,
    mtime: u64,
    headerChecksum: u32,
    headerSha256: string,
    payloadSha256: string)

  datatype PathSource = FromHeader | FromCarrier(carrier: nat)

  datatype MemberEvidence = MemberEvidence(tar: TarEvidence, baseName: seq<byte>, pathSource: PathSource)

  datatype NormalizationAction = StripDirectoryTrailingSlash | DropDotComponent(component: nat)

  /** `evidence` is `None` for a member that carries the evidence of another format. */
  datatype Member = Member(
    kind: MemberKind,
    declaredSize: u64,
    rawName: seq<byte>,
    decodedName: seq<byte>,
    canonicalPath: seq<byte>,
    components: seq<seq<byte>>,
    actions: seq<NormalizationAction>,
    evidence: Option<MemberEvidence>)

  datatype Archive = Archive(tar: TarCovering, carriers: seq<Carrier>)

  // ---- The records the bytes describe ----

  /** A header block found at offset `at`. */
  datatype Record = Record(at: nat, facts: GnuFacts)
  {
    predicate IsCarrier() {
      facts.header.typeflag == 0x4C
    }

    function Size(): u64 {
      facts.header.size
    }

    function PayloadStart(): nat {
      at + BLOCK_LEN
    }

    function PayloadEnd(): nat {
      PayloadStart() + Size()
    }

    function End(): nat {
      PayloadEnd() + Padding(Size())
    }
  }

  /** The record whose header is at `at`, if it is well formed and ends by `end`. */
  function RecordAt(bytes: seq<byte>, at: nat, end: nat): (r: Option<Record>)
    ensures r.Some? ==> r.value.at == at && at + BLOCK_LEN <= r.value.End() <= end
  {
    if at + BLOCK_LEN > end || at + BLOCK_LEN > |bytes| then None
    else
      var facts := GnuHeaderFacts(bytes[at..at + BLOCK_LEN]);
      if facts.None? || Record(at, facts.value).End() > end then None
      else Some(Record(at, facts.value))
  }

  /** Header by header from `at` until the area is full; `None` when some header does not fit. */
  function Layout(bytes: seq<byte>, at: nat, end: nat): Option<seq<Record>>
    decreases end - at
  {
    if at >= end then Some([])
    else
      var first := RecordAt(bytes, at, end);
      if first.None? then None
      else
        var rest := Layout(bytes, first.value.End(), end);
        if rest.None? then None else Some([first.value] + rest.value)
  }

  // ---- What acceptance means ----

  /** Everything the replay reads. */
  datatype Input = Input(
    sha256: HexDigest, bytes: seq<byte>, carriers: seq<Carrier>, members: seq<Member>, end: u64)

  predicate InBounds(x: Input, r: Record) {
    r.End() <= x.end && x.end <= |x.bytes|
  }

  function HeaderOf(x: Input, r: Record): Header
    requires InBounds(x, r)
  {
    x.bytes[r.at..r.PayloadStart()]
  }

  function PayloadOf(x: Input, r: Record): seq<byte>
    requires InBounds(x, r)
  {
    x.bytes[r.PayloadStart()..r.PayloadEnd()]
  }

  predicate PaddingIsZero(x: Input, r: Record)
    requires InBounds(x, r)
  {
    AllZero(x.bytes[r.PayloadEnd()..r.End()])
  }

  /** A carrier payload: a NUL-terminated UTF-8 path of one to 8191 bytes. */
  predicate CarrierPayloadOk(payload: seq<byte>) {
    && 2 <= |payload| <= MAX_PATH_BYTES + 1
    && payload[|payload| - 1] == 0
    && 0 !in payload[..|payload| - 1]
    && Utf8.Valid(payload[..|payload| - 1])
  }

  /** The only evidence a carrier record can have. */
  function CarrierOf(x: Input, r: Record): Carrier
    requires InBounds(x, r) && r.Size() > 0
  {
    var payload := PayloadOf(x, r);
    var f := r.facts.header;
    Carrier(r.facts.name, payload[..|payload| - 1], ByteRange(r.at, BLOCK_LEN), ByteRange(r.PayloadStart(), r.Size()),
            ByteRange(r.PayloadStart(), r.Size() - 1), ByteRange(r.PayloadEnd(), Padding(r.Size())),
            f.mode, f.mtime, f.checksum, x.sha256(HeaderOf(x, r)), x.sha256(payload))
  }

  /** The only evidence a member record can have, given where its path comes from. */
  function EvidenceOf(x: Input, r: Record, source: PathSource): MemberEvidence
    requires InBounds(x, r)
  {
    var f := r.facts.header;
    MemberEvidence(
      TarEvidence(ByteRange(r.at, BLOCK_LEN), ByteRange(r.PayloadStart(), r.Size()),
                  ByteRange(r.PayloadEnd(), Padding(r.Size())), f.mode, f.mtime, f.checksum, x.sha256(HeaderOf(x, r))),
      r.facts.name, source)
  }

  function StripActions(actions: seq<NormalizationAction>): nat {
    if actions == [] then 0
    else (if actions[0].StripDirectoryTrailingSlash? then 1 else 0) + StripActions(actions[1..])
  }

  /** A directory name loses at most one trailing slash, and records it; a file name loses none. */
  predicate NormalizationOk(m: Member) {
    var name := m.decodedName;
    && Join(m.components, SLASH) == m.canonicalPath
    && if m.kind.File? then StripActions(m.actions) == 0
       else if name != [] && name[|name| - 1] == SLASH then
         StripActions(m.actions) == 1 && m.canonicalPath == name[..|name| - 1]
       else StripActions(m.actions) == 0 && m.canonicalPath == name
  }

  /** A directory's name is its canonical path and as many slashes as strips were recorded: none or one. */
  lemma DirectoryNameIsRecovered(m: Member)
    requires m.kind.Directory?
    ensures NormalizationOk(m) <==>
            && Join(m.components, SLASH) == m.canonicalPath
            && StripActions(m.actions) <= 1
            && m.decodedName == m.canonicalPath + (if StripActions(m.actions) == 1 then [SLASH] else [])
            && (StripActions(m.actions) == 0 && m.decodedName != [] ==> m.decodedName[|m.decodedName| - 1] != SLASH)
  {
    var name := m.decodedName;
    if name != [] && name[|name| - 1] == 0x2F { assert name == name[..|name| - 1] + [0x2F]; }
  }

  function EffectiveName(x: Input, r: Record, source: PathSource): Option<seq<byte>> {
    match source
    case FromCarrier(k) => if k < |x.carriers| then Some(x.carriers[k].pathBytes) else None
    case FromHeader => if Utf8.Valid(r.facts.name) then Some(r.facts.name) else None
  }

  predicate CarrierAgrees(x: Input, r: Record, c: Carrier) {
    && InBounds(x, r)
    && CarrierPayloadOk(PayloadOf(x, r))
    && c == CarrierOf(x, r)
    && PaddingIsZero(x, r)
  }

  predicate MemberAgrees(x: Input, r: Record, m: Member, source: PathSource) {
    && InBounds(x, r)
    && m.evidence == Some(EvidenceOf(x, r, source))
    && m.kind == (if r.facts.header.typeflag == 0x35 then Directory else File)
    && m.declaredSize == r.Size()
    && EffectiveName(x, r, source) == Some(m.rawName)
    && m.decodedName == m.rawName
    && NormalizationOk(m)
    && PaddingIsZero(x, r)
  }

  /** The path of a member comes from the carrier record immediately before it, if there is one. */
  function Source(carriersBefore: nat, afterCarrier: bool): PathSource {
    if afterCarrier && carriersBefore > 0 then FromCarrier(carriersBefore - 1) else FromHeader
  }

  /** Carriers and members take the records in order; a carrier is always followed by a member. */
  predicate AgreesFrom(x: Input, records: seq<Record>, c: nat, m: nat, afterCarrier: bool)
    decreases records
  {
    if records == [] then c == |x.carriers| && m == |x.members| && !afterCarrier
    else if records[0].IsCarrier() then
      !afterCarrier && c < |x.carriers| && CarrierAgrees(x, records[0], x.carriers[c])
      && AgreesFrom(x, records[1..], c + 1, m, true)
    else
      m < |x.members| && MemberAgrees(x, records[0], x.members[m], Source(c, afterCarrier))
      && AgreesFrom(x, records[1..], c, m + 1, false)
  }

  predicate AgreesAt(x: Input, at: nat, c: nat, m: nat, afterCarrier: bool) {
    && at <= x.end
    && Layout(x.bytes, at, x.end).Some?
    && AgreesFrom(x, Layout(x.bytes, at, x.end).value, c, m, afterCarrier)
  }

  datatype ArchiveIr = ArchiveIr(
    format: ArchiveFormat,
    sourceDigest: SourceDigest,
    gzipOutput: Option<(u64, string)>,
    archive: Option<Archive>,
    members: seq<Member>)

  predicate IdentityAgrees(snapshot: Snapshot, ir: ArchiveIr) {
    match ir.format
    case TarGnuLongName => ir.sourceDigest == snapshot.digest
    case TarGzipGnuLongName =>
      ir.gzipOutput.Some? && ir.gzipOutput.value.0 == |snapshot.bytes|
      && snapshot.digest == Available(ir.gzipOutput.value.1)
    case _ => false
  }

  function InputOf(sha256: HexDigest, snapshot: Snapshot, a: Archive, members: seq<Member>): Input
    requires a.tar.memberRecords.EndFits()
  {
    Input(sha256, snapshot.bytes, a.carriers, members, a.tar.memberRecords.End())
  }

  predicate AcceptsArchive(sha256: HexDigest, snapshot: Snapshot, ir: ArchiveIr) {
    && IdentityAgrees(snapshot, ir)
    && ir.archive.Some?
    && var a := ir.archive.value;
       && |a.carriers| <= MAX_CARRIERS
       && TarHeader.TopLevelTiles(snapshot.bytes, a.tar)
       && AgreesAt(InputOf(sha256, snapshot, a, ir.members), 0, 0, 0, false)
       && AllZero(Slice(snapshot.bytes, a.tar.terminator))
       && AllZero(Slice(snapshot.bytes, a.tar.trailingZeros))
  }

  // ---- The audit ----

  method AuditCarrier(x: Input, r: Record, carrierIndex: nat) returns (ok: bool)
    requires InBounds(x, r)
    ensures ok <==> carrierIndex < |x.carriers| && CarrierAgrees(x, r, x.carriers[carrierIndex])
  {
    hide Utf8.Valid;
    var f := r.facts.header;
    if f.size < 2 || f.size > MAX_PATH_BYTES + 1 {
      return false;
    }
    if carrierIndex >= |x.carriers| {
      return false;
    }
    var c := x.carriers[carrierIndex];
    var header := x.bytes[r.at..r.PayloadStart()];
    if c.header != ByteRange(r.at, BLOCK_LEN) || c.payload != ByteRange(r.PayloadStart(), f.size)
       || c.path != ByteRange(r.PayloadStart(), f.size - 1)
       || c.padding != ByteRange(r.PayloadEnd(), Padding(f.size))
       || c.rawName != r.facts.name || c.mode != f.mode || c.mtime != f.mtime || c.headerChecksum != f.checksum
       || c.headerSha256 != x.sha256(header)
    {
      return false;
    }
    var payload := x.bytes[r.PayloadStart()..r.PayloadEnd()];
    var path := payload[..|payload| - 1];
    if payload[|payload| - 1] != 0 || 0 in path || !Utf8.Valid(path) || c.pathBytes != path
       || c.payloadSha256 != x.sha256(payload)
    {
      return false;
    }
    assert Slice(x.bytes, c.padding) == x.bytes[r.PayloadEnd()..r.End()];
    ok := AuditZeroRange(x.bytes, c.padding);
  }

  method AuditNormalization(m: Member) returns (ok: bool)
    ensures ok <==> NormalizationOk(m)
  {
    if Join(m.components, SLASH) != m.canonicalPath {
      return false;
    }
    var stripActions := StripActions(m.actions);
    var name := m.decodedName;
    if m.kind.Directory? {
      if name != [] && name[|name| - 1] == 0x2F {
        return stripActions == 1 && m.canonicalPath == name[..|name| - 1];
      }
      return stripActions == 0 && m.canonicalPath == name;
    }
    return stripActions == 0;
  }

  method AuditMember(x: Input, r: Record, memberIndex: nat, pending: Option<nat>) returns (ok: bool)
    requires InBounds(x, r)
    ensures ok <==> && memberIndex < |x.members|
                    && MemberAgrees(x, r, x.members[memberIndex],
                                    if pending.Some? then FromCarrier(pending.value) else FromHeader)
  {
    hide Utf8.Valid, NormalizationOk;
    if memberIndex >= |x.members| || x.members[memberIndex].evidence.None? {
      return false;
    }
    var m := x.members[memberIndex];
    var e := m.evidence.value;
    var f := r.facts.header;
    var header := x.bytes[r.at..r.PayloadStart()];
    var expectedKind := if f.typeflag == 0x35 then Directory else File;
    if m.kind != expectedKind || m.declaredSize != f.size || e.baseName != r.facts.name
       || e.tar.header != ByteRange(r.at, BLOCK_LEN) || e.tar.payload != ByteRange(r.PayloadStart(), f.size)
       || e.tar.padding != ByteRange(r.PayloadEnd(), Padding(f.size)) || e.tar.mode != f.mode
       || e.tar.mtime != f.mtime || e.tar.headerChecksum != f.checksum || e.tar.headerSha256 != x.sha256(header)
    {
      return false;
    }
    var expected: seq<byte>;
    if pending.Some? {
      if e.pathSource != FromCarrier(pending.value) || pending.value >= |x.carriers| {
        return false;
      }
      expected := x.carriers[pending.value].pathBytes;
    } else {
      if e.pathSource != FromHeader || !Utf8.Valid(r.facts.name) {
        return false;
      }
      expected := r.facts.name;
    }
    if m.rawName != expected || m.decodedName != expected {
      return false;
    }
    var normalized := AuditNormalization(m);
    if !normalized {
      return false;
    }
    assert Slice(x.bytes, e.tar.padding) == x.bytes[r.PayloadEnd()..r.End()];
    ok := AuditZeroRange(x.bytes, e.tar.padding);
  }

  /** The loop of `audit_tar_gnu_longname_covering`; every pass advances by at least one block. */
  method AuditReplay(x: Input) returns (ok: bool)
    requires x.end <= |x.bytes|
    ensures ok <==> AgreesAt(x, 0, 0, 0, false)
  {
    hide CarrierAgrees, MemberAgrees, GnuHeaderFacts;
    var cursor: nat, carrierIndex: nat, memberIndex: nat := 0, 0, 0;
    var pending: Option<nat> := None;
    while cursor < x.end
      invariant cursor <= x.end
      invariant AgreesAt(x, 0, 0, 0, false) <==> AgreesAt(x, cursor, carrierIndex, memberIndex, pending.Some?)
      invariant pending.Some? ==> carrierIndex > 0 && pending.value == carrierIndex - 1
      decreases x.end - cursor
    {
      var record := RecordAt(x.bytes, cursor, x.end);
      if record.None? {
        return false;
      }
      var r := record.value;
      assert AgreesAt(x, cursor, carrierIndex, memberIndex, pending.Some?) ==>
          Layout(x.bytes, cursor, x.end).value[1..] == Layout(x.bytes, r.End(), x.end).value;
      assert Layout(x.bytes, r.End(), x.end).Some? ==>
          Layout(x.bytes, cursor, x.end).value[1..] == Layout(x.bytes, r.End(), x.end).value;
      if r.IsCarrier() {
        if pending.Some? {
          return false;
        }
        var agrees := AuditCarrier(x, r, carrierIndex);
        if !agrees {
          return false;
        }
        pending := Some(carrierIndex);
        carrierIndex := carrierIndex + 1;
      } else {
        var agrees := AuditMember(x, r, memberIndex, pending);
        if !agrees {
          return false;
        }
        pending := None;
        memberIndex := memberIndex + 1;
      }
      cursor := r.End();
    }
    return pending.None? && carrierIndex == |x.carriers| && memberIndex == |x.members|;
  }

  /** `audit_tar_gnu_longname_covering`. */
  method AuditCovering(sha256: HexDigest, snapshot: Snapshot, ir: ArchiveIr) returns (ok: bool)
    ensures ok <==> AcceptsArchive(sha256, snapshot, ir)
  {
    hide AgreesAt, AllZero;
    if !IdentityAgrees(snapshot, ir) || ir.archive.None? {
      return false;
    }
    var a := ir.archive.value;
    if |a.carriers| > MAX_CARRIERS || !TarHeader.TopLevelTiles(snapshot.bytes, a.tar) {
      return false;
    }
    ok := AuditReplay(InputOf(sha256, snapshot, a, ir.members));
    if !ok {
      return;
    }
    ok := AuditZeroRange(snapshot.bytes, a.tar.terminator);
    if !ok {
      return;
    }
    ok := AuditZeroRange(snapshot.bytes, a.tar.trailingZeros);
  }

  // ---- The replay, one record at a time ----

  lemma ReplayStep(x: Input, at: nat, c: nat, m: nat, afterCarrier: bool) returns (r: Record)
    requires AgreesAt(x, at, c, m, afterCarrier) && at < x.end
    ensures RecordAt(x.bytes, at, x.end) == Some(r) && at < r.End() <= x.end
    ensures r.IsCarrier() ==>
              && !afterCarrier && c < |x.carriers| && CarrierAgrees(x, r, x.carriers[c])
              && AgreesAt(x, r.End(), c + 1, m, true)
    ensures !r.IsCarrier() ==>
              && m < |x.members| && MemberAgrees(x, r, x.members[m], Source(c, afterCarrier))
              && AgreesAt(x, r.End(), c, m + 1, false)
  {
    hide CarrierAgrees, MemberAgrees, GnuHeaderFacts;
    r := RecordAt(x.bytes, at, x.end).value;
    assert Layout(x.bytes, at, x.end).value[1..] == Layout(x.bytes, r.End(), x.end).value;
  }

  /** Where the record that carries a carrier's or a member's evidence lies. */
  function CarrierSpan(c: Carrier): CheckedInterval {
    if c.header.offset <= c.padding.End() then Interval(c.header.offset, c.padding.End()) else Interval(0, 0)
  }

  function MemberSpan(m: Member): CheckedInterval {
    if m.evidence.Some? && m.evidence.value.tar.header.offset <= m.evidence.value.tar.padding.End() then
      Interval(m.evidence.value.tar.header.offset, m.evidence.value.tar.padding.End())
    else Interval(0, 0)
  }

  lemma SpansAgree(x: Input, r: Record)
    ensures forall c: Carrier :: CarrierAgrees(x, r, c) ==> CarrierSpan(c) == Interval(r.at, r.End())
    ensures forall m: Member, s :: MemberAgrees(x, r, m, s) ==>
              MemberSpan(m) == Interval(r.at, r.End()) && m.evidence.Some? && m.evidence.value.pathSource == s
              && EffectiveName(x, r, s) == Some(m.rawName)
  {
    hide GnuHeaderFacts, Utf8.Valid, NormalizationOk, AllZero, CarrierPayloadOk, EffectiveName;
  }

  // ---- Carrier and member records tile the area ----

  function Spans(x: Input, c: nat, m: nat): seq<CheckedInterval>
    requires c <= |x.carriers| && m <= |x.members|
    decreases |x.carriers| - c + |x.members| - m
  {
    if c < |x.carriers| then [CarrierSpan(x.carriers[c])] + Spans(x, c + 1, m)
    else if m < |x.members| then [MemberSpan(x.members[m])] + Spans(x, c, m + 1)
    else []
  }

  lemma {:induction false} SpansTakeMember(x: Input, c: nat, m: nat)
    requires c <= |x.carriers| && m < |x.members|
    ensures multiset(Spans(x, c, m)) == multiset{MemberSpan(x.members[m])} + multiset(Spans(x, c, m + 1))
    decreases |x.carriers| - c
  {
    if c < |x.carriers| {
      SpansTakeMember(x, c + 1, m);
    }
  }

  lemma {:induction false} ReplayChain(x: Input, at: nat, c: nat, m: nat, afterCarrier: bool)
    returns (chain: seq<CheckedInterval>)
    requires AgreesAt(x, at, c, m, afterCarrier) && c <= |x.carriers| && m <= |x.members|
    ensures Chain(at, chain, x.end)
    ensures multiset(chain) == multiset(Spans(x, c, m))
    decreases x.end - at
  {
    hide CarrierAgrees, MemberAgrees, GnuHeaderFacts, CarrierSpan, MemberSpan;
    if at == x.end {
      chain := [];
    } else {
      var r := ReplayStep(x, at, c, m, afterCarrier);
      SpansAgree(x, r);
      var rest: seq<CheckedInterval>;
      if r.IsCarrier() {
        rest := ReplayChain(x, r.End(), c + 1, m, true);
      } else {
        rest := ReplayChain(x, r.End(), c, m + 1, false);
        SpansTakeMember(x, c, m);
      }
      chain := [Interval(r.at, r.End())] + rest;
    }
  }

  /** Every byte of the member-record area belongs to exactly one carrier or member record. */
  lemma RecordsTileTheArea(x: Input)
    requires AgreesAt(x, 0, 0, 0, false)
    ensures ExactCover(Interval(0, x.end), Spans(x, 0, 0))
  {
    var chain := ReplayChain(x, 0, 0, 0, false);
    ChainFacts(0, chain, x.end);
    SweepAcceptsChains(Interval(0, x.end), chain);
    SortThenSweep(Interval(0, x.end), Spans(x, 0, 0), chain);
  }

  // ---- Which carrier names which member ----

  predicate HeaderAt(m: Member, at: nat) {
    m.evidence.Some? && m.evidence.value.tar.header.offset == at
  }

  predicate NamedBy(m: Member, k: nat) {
    m.evidence.Some? && m.evidence.value.pathSource == FromCarrier(k)
  }

  /** Evidence not yet consumed lies at or after the cursor, in order. */
  lemma {:induction false} LaterEvidence(x: Input, at: nat, c: nat, m: nat, afterCarrier: bool)
    requires AgreesAt(x, at, c, m, afterCarrier)
    ensures forall k :: c <= k < |x.carriers| ==> at <= x.carriers[k].header.offset < x.carriers[k].padding.End()
    ensures forall k, l :: c <= k < l < |x.carriers| ==> x.carriers[k].padding.End() < x.carriers[l].padding.End()
    ensures forall n :: m <= n < |x.members| ==>
              x.members[n].evidence.Some? && at <= x.members[n].evidence.value.tar.header.offset
    ensures forall n, o :: m <= n < o < |x.members| ==>
              x.members[n].evidence.value.tar.header.offset < x.members[o].evidence.value.tar.header.offset
    decreases x.end - at
  {
    hide CarrierAgrees, MemberAgrees, GnuHeaderFacts;
    if at < x.end {
      var r := ReplayStep(x, at, c, m, afterCarrier);
      SpansAgree(x, r);
      if r.IsCarrier() {
        LaterEvidence(x, r.End(), c + 1, m, true);
      } else {
        LaterEvidence(x, r.End(), c, m + 1, false);
      }
    }
  }

  /** Carriers already consumed end at or before the cursor; only one just consumed ends at it. */
  predicate Behind(x: Input, at: nat, c: nat, afterCarrier: bool) {
    && c <= |x.carriers|
    && (afterCarrier ==> 0 < c)
    && forall k :: 0 <= k < c ==>
         && x.carriers[k].padding.End() <= at
         && (x.carriers[k].padding.End() == at <==> afterCarrier && k == c - 1)
  }

  /** The point of an accepted replay at which member `n` is consumed. */
  lemma {:induction false} MemberPosition(x: Input, at: nat, c: nat, m: nat, afterCarrier: bool, n: nat)
    returns (r: Record, before: nat, after: bool)
    requires AgreesAt(x, at, c, m, afterCarrier) && Behind(x, at, c, afterCarrier) && m <= n < |x.members|
    ensures MemberAgrees(x, r, x.members[n], Source(before, after)) && Behind(x, r.at, before, after)
    ensures forall k :: before <= k < |x.carriers| ==> r.at < x.carriers[k].padding.End()
    decreases x.end - at
  {
    hide CarrierAgrees, MemberAgrees, GnuHeaderFacts;
    r := ReplayStep(x, at, c, m, afterCarrier);
    SpansAgree(x, r);
    LaterEvidence(x, at, c, m, afterCarrier);
    if r.IsCarrier() {
      r, before, after := MemberPosition(x, r.End(), c + 1, m, true, n);
    } else if m == n {
      before, after := c, afterCarrier;
    } else {
      r, before, after := MemberPosition(x, r.End(), c, m + 1, false, n);
    }
  }

  /**
   In an accepted archive a member takes its path from carrier `k` exactly when that carrier's record ends
   where the member's header begins, and then its effective name is the carrier's path.
   */
  lemma CarrierNamesTheMemberItTouches(x: Input, n: nat, k: nat)
    requires AgreesAt(x, 0, 0, 0, false) && n < |x.members| && k < |x.carriers|
    ensures NamedBy(x.members[n], k) <==> HeaderAt(x.members[n], x.carriers[k].padding.End())
    ensures NamedBy(x.members[n], k) ==> x.members[n].rawName == x.carriers[k].pathBytes
  {
    hide CarrierAgrees, MemberAgrees, GnuHeaderFacts;
    var r, before, after := MemberPosition(x, 0, 0, 0, false, n);
    SpansAgree(x, r);
  }

  lemma {:induction false} CarrierIsFollowed(x: Input, at: nat, c: nat, m: nat, afterCarrier: bool, k: nat)
    returns (n: nat)
    requires AgreesAt(x, at, c, m, afterCarrier) && c <= k < |x.carriers|
    ensures m <= n < |x.members| && NamedBy(x.members[n], k)
    decreases x.end - at
  {
    hide CarrierAgrees, MemberAgrees, GnuHeaderFacts;
    var r := ReplayStep(x, at, c, m, afterCarrier);
    if !r.IsCarrier() {
      n := CarrierIsFollowed(x, r.End(), c, m + 1, false, k);
    } else if c < k {
      n := CarrierIsFollowed(x, r.End(), c + 1, m, true, k);
    } else {
      var next := ReplayStep(x, r.End(), c + 1, m, true);
      SpansAgree(x, next);
      n := m;
    }
  }

  /** Carriers are neither chained nor left over: each one names exactly one member. */
  lemma EachCarrierNamesOneMember(x: Input, k: nat) returns (n: nat)
    requires AgreesAt(x, 0, 0, 0, false) && k < |x.carriers|
    ensures n < |x.members| && NamedBy(x.members[n], k)
    ensures forall o :: 0 <= o < |x.members| && NamedBy(x.members[o], k) ==> o == n
  {
    hide AgreesAt;
    n := CarrierIsFollowed(x, 0, 0, 0, false, k);
    LaterEvidence(x, 0, 0, 0, false);
    CarrierNamesTheMemberItTouches(x, n, k);
    forall o | 0 <= o < |x.members| && NamedBy(x.members[o], k) ensures o == n {
      CarrierNamesTheMemberItTouches(x, o, k);
    }
  }

  /** Carriers feed members in source order. */
  lemma CarriersFeedInOrder(x: Input, k: nat, l: nat, n: nat, o: nat)
    requires AgreesAt(x, 0, 0, 0, false) && k < |x.carriers| && l < |x.carriers| && n < |x.members| && o < |x.members|
    requires NamedBy(x.members[n], k) && NamedBy(x.members[o], l)
    ensures k < l <==> n < o
  {
    hide AgreesAt;
    LaterEvidence(x, 0, 0, 0, false);
    CarrierNamesTheMemberItTouches(x, n, k);
    CarrierNamesTheMemberItTouches(x, o, l);
  }

  // ---- One source, one evidence ----

  /** Two members agree on everything the source bytes dictate. */
  predicate SameReading(a: Member, b: Member) {
    && a.evidence == b.evidence && a.kind == b.kind && a.declaredSize == b.declaredSize
    && a.rawName == b.rawName && a.decodedName == b.decodedName
    && StripActions(a.actions) == StripActions(b.actions)
    && (a.kind.Directory? ==> a.canonicalPath == b.canonicalPath)
  }

  lemma MembersAgreeAlike(x: Input, y: Input, r: Record, a: Member, b: Member, s: PathSource)
    requires x.bytes == y.bytes && x.end == y.end && x.sha256 == y.sha256
    requires s.FromCarrier? ==> s.carrier < |x.carriers| && s.carrier < |y.carriers|
                                && x.carriers[s.carrier] == y.carriers[s.carrier]
    requires MemberAgrees(x, r, a, s) && MemberAgrees(y, r, b, s)
    ensures SameReading(a, b)
  {
    hide GnuHeaderFacts, Utf8.Valid, AllZero, StripActions, Join;
    assert EvidenceOf(x, r, s) == EvidenceOf(y, r, s);
  }

  lemma CarriersAgreeAlike(x: Input, y: Input, r: Record, a: Carrier, b: Carrier)
    requires x.bytes == y.bytes && x.end == y.end && x.sha256 == y.sha256
    requires CarrierAgrees(x, r, a) && CarrierAgrees(y, r, b)
    ensures a == b
  {
    hide GnuHeaderFacts, Utf8.Valid, AllZero;
    assert CarrierOf(x, r) == CarrierOf(y, r);
  }

  lemma {:induction false} SameSourceSameEvidence(x: Input, y: Input, at: nat, c: nat, m: nat, afterCarrier: bool)
    requires x.bytes == y.bytes && x.end == y.end && x.sha256 == y.sha256
    requires AgreesAt(x, at, c, m, afterCarrier) && AgreesAt(y, at, c, m, afterCarrier)
    requires c <= |x.carriers| && c <= |y.carriers| && x.carriers[..c] == y.carriers[..c]
    ensures x.carriers == y.carriers && |x.members| == |y.members|
    ensures forall n :: m <= n < |x.members| ==> SameReading(x.members[n], y.members[n])
    decreases x.end - at
  {
    hide CarrierAgrees, MemberAgrees, GnuHeaderFacts, SameReading;
    if at < x.end {
      var r := ReplayStep(x, at, c, m, afterCarrier);
      var s := ReplayStep(y, at, c, m, afterCarrier);
      if r.IsCarrier() {
        CarriersAgreeAlike(x, y, r, x.carriers[c], y.carriers[c]);
        assert x.carriers[..c + 1] == x.carriers[..c] + [x.carriers[c]];
        assert y.carriers[..c + 1] == y.carriers[..c] + [y.carriers[c]];
        SameSourceSameEvidence(x, y, r.End(), c + 1, m, true);
      } else {
        assert c > 0 ==> x.carriers[c - 1] == x.carriers[..c][c - 1] == y.carriers[..c][c - 1] == y.carriers[c - 1];
        MembersAgreeAlike(x, y, r, x.members[m], y.members[m], Source(c, afterCarrier));
        SameSourceSameEvidence(x, y, r.End(), c, m + 1, false);
      }
    } else {
      assert x.carriers[..c] == x.carriers && y.carriers[..c] == y.carriers;
    }
  }

  lemma AreaIsReadAlike(x: Input, y: Input)
    requires x.bytes == y.bytes && x.end == y.end && x.sha256 == y.sha256
    requires AgreesAt(x, 0, 0, 0, false) && AgreesAt(y, 0, 0, 0, false)
    ensures x.carriers == y.carriers && |x.members| == |y.members|
    ensures forall n :: 0 <= n < |x.members| ==> SameReading(x.members[n], y.members[n])
  {
    assert x.carriers[..0] == y.carriers[..0];
    SameSourceSameEvidence(x, y, 0, 0, 0, false);
  }

  /** No record starts in a zero block, because a header holds the magic. */
  lemma ZeroBlockIsNoRecord(bytes: seq<byte>, at: nat, end: nat)
    requires at + BLOCK_LEN <= |bytes| && AllZero(bytes[at..at + BLOCK_LEN])
    ensures RecordAt(bytes, at, end).None?
  {
    var h := bytes[at..at + BLOCK_LEN];
    assert h[257] == 0 && h[257..265][0] == h[257];
  }

  /** Records that fill the area up to a zero block cannot be continued beyond it. */
  lemma {:induction false} LayoutStopsAtZeroBlock(bytes: seq<byte>, at: nat, end: nat, later: nat)
    requires at <= end < later && Layout(bytes, at, end).Some?
    requires end + BLOCK_LEN <= |bytes| && AllZero(bytes[end..end + BLOCK_LEN])
    ensures Layout(bytes, at, later).None?
    decreases end - at
  {
    hide GnuHeaderFacts, AllZero;
    if at == end {
      ZeroBlockIsNoRecord(bytes, at, later);
    } else {
      LayoutStopsAtZeroBlock(bytes, RecordAt(bytes, at, end).value.End(), end, later);
    }
  }

  function AreaEnd(ir: ArchiveIr): nat
    requires ir.archive.Some?
  {
    ir.archive.value.tar.memberRecords.End()
  }

  /** An accepted archive's records fill the area, and a zero block follows. */
  lemma AreaFacts(sha256: HexDigest, snapshot: Snapshot, ir: ArchiveIr)
    requires AcceptsArchive(sha256, snapshot, ir)
    ensures var end := AreaEnd(ir);
            && Layout(snapshot.bytes, 0, end).Some?
            && end + BLOCK_LEN <= |snapshot.bytes| && AllZero(snapshot.bytes[end..end + BLOCK_LEN])
  {
    hide AgreesFrom, IdentityAgrees, Layout;
    var end := AreaEnd(ir);
    assert snapshot.bytes[end..end + BLOCK_LEN] == Slice(snapshot.bytes, ir.archive.value.tar.terminator)[..BLOCK_LEN];
  }

  /** The bytes determine where the member area ends. */
  lemma AreaEndsAlike(sha256: HexDigest, snapshot: Snapshot, a: ArchiveIr, b: ArchiveIr)
    requires AcceptsArchive(sha256, snapshot, a) && AcceptsArchive(sha256, snapshot, b)
    ensures AreaEnd(a) <= AreaEnd(b)
  {
    hide AllZero, Layout, AgreesAt, IdentityAgrees;
    AreaFacts(sha256, snapshot, a);
    AreaFacts(sha256, snapshot, b);
    if AreaEnd(b) < AreaEnd(a) { LayoutStopsAtZeroBlock(snapshot.bytes, 0, AreaEnd(b), AreaEnd(a)); }
  }

  /** One interpretation or nothing: two archives accepted for the same bytes read them alike. */
  lemma EvidenceIsUnique(sha256: HexDigest, snapshot: Snapshot, a: ArchiveIr, b: ArchiveIr)
    requires AcceptsArchive(sha256, snapshot, a) && AcceptsArchive(sha256, snapshot, b)
    ensures a.archive.value.tar == b.archive.value.tar && a.archive.value.carriers == b.archive.value.carriers
    ensures |a.members| == |b.members|
    ensures forall n :: 0 <= n < |a.members| ==> SameReading(a.members[n], b.members[n])
  {
    hide AgreesAt, IdentityAgrees, SameReading, AllZero;
    AreaEndsAlike(sha256, snapshot, a, b);
    AreaEndsAlike(sha256, snapshot, b, a);
    AreaIsReadAlike(InputOf(sha256, snapshot, a.archive.value, a.members),
                    InputOf(sha256, snapshot, b.archive.value, b.members));
  }
}
