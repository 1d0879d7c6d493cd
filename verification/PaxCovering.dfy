/** PAX covering audit: physical partition of the records and replay of global and local overrides. */
module PaxCovering {
  import opened Prelude
  import opened TarHeader
  import opened PaxRecords
  import opened Intervals
  import Utf8

  const MAX_EXTENSIONS := 1024
  const MAX_EXTENSION_BYTES := 0x1_0000

  datatype ExtensionKind = Global | Local

  datatype Extension = Extension(
    rawName: seq<byte>,
    kind: ExtensionKind,
    header: ByteRange,
    payload: ByteRange,
    padding: ByteRange,
    mode: u32,
    mtime: u64,
    headerChecksum: u32,
    headerSha256: string,
    payloadSha256: string,
    records: seq<RecordEvidence>)

  datatype ValueSource =
    | Ustar
    | FromGlobal(extension: nat, record: nat)
    | FromLocal(extension: nat, record: nat)

  datatype MemberEvidence = MemberEvidence(
    tar: TarEvidence,
    baseName: seq<byte>,
    baseSize: u64,
    pathSource: ValueSource,
    sizeSource: ValueSource)

  /** `evidence` is `None` for a member that carries the evidence of another format. */
  datatype Member = Member(
    kind: MemberKind,
    declaredSize: u64,
    rawName: seq<byte>,
    decodedName: seq<byte>,
    evidence: Option<MemberEvidence>)

  datatype Archive = Archive(tar: TarCovering, extensions: seq<Extension>)

  // ---- Where an effective value comes from ----

  /** The last record with the keyword, which is the one `from_extension` keeps. */
  function LastRecord(records: seq<RecordEvidence>, keyword: Keyword): (r: Option<nat>)
    ensures r.Some? ==> r.value < |records| && records[r.value].keyword == keyword
    ensures r.Some? <==> exists i :: 0 <= i < |records| && records[i].keyword == keyword
  {
    if records == [] then None
    else if records[|records| - 1].keyword == keyword then Some(|records| - 1)
    else LastRecord(records[..|records| - 1], keyword)
  }

  /** Searching backwards: the last global extension before index `i` that sets the keyword. */
  function LastGlobal(extensions: seq<Extension>, i: nat, keyword: Keyword): (source: Option<ValueSource>)
    requires i <= |extensions|
    ensures source.Some? ==> source.value.FromGlobal? && source.value.extension < i
  {
    if i == 0 then None
    else
      var record := LastRecord(extensions[i - 1].records, keyword);
      if extensions[i - 1].kind.Global? && record.Some? then Some(FromGlobal(i - 1, record.value))
      else LastGlobal(extensions, i - 1, keyword)
  }

  /** The record immediately before, when extension `i - 1` sits there, is local and sets the keyword. */
  function LocalBefore(extensions: seq<Extension>, i: nat, afterExtension: bool, keyword: Keyword): Option<ValueSource>
    requires i <= |extensions|
  {
    if afterExtension && i > 0 && extensions[i - 1].kind.Local? && LastRecord(extensions[i - 1].records, keyword).Some?
    then Some(FromLocal(i - 1, LastRecord(extensions[i - 1].records, keyword).value))
    else None
  }

  /** POSIX precedence: the local header just before, else the last global value, else the ustar field. */
  function Provenance(extensions: seq<Extension>, i: nat, afterExtension: bool, keyword: Keyword): ValueSource
    requires i <= |extensions|
  {
    var local, global := LocalBefore(extensions, i, afterExtension, keyword), LastGlobal(extensions, i, keyword);
    if local.Some? then local.value else if global.Some? then global.value else Ustar
  }

  // ---- What acceptance of one record means ----

  predicate ExtensionHeaderAgrees(sha256: HexDigest, h: Header, e: Extension) {
    && PaxFacts(h) == Some(HeaderFacts(if e.kind.Global? then 0x67 else 0x78, e.payload.len, e.mode, e.mtime,
                                       e.headerChecksum))
    && PaxHeaderName(h) == Some(e.rawName)
    && sha256(h) == e.headerSha256
  }

  predicate ExtensionOk(sha256: HexDigest, bytes: seq<byte>, e: Extension, at: nat, end: nat) {
    && AlignedRecord(e.header, e.payload, e.padding, at, end)
    && e.payload.len <= MAX_EXTENSION_BYTES
    && Holds(bytes, e.padding)
    && ExtensionHeaderAgrees(sha256, Slice(bytes, e.header), e)
    && sha256(Slice(bytes, e.payload)) == e.payloadSha256
    && PaxRecords.Accepts(Slice(bytes, e.payload), e.payload.offset, e.records)
    && AllZero(Slice(bytes, e.padding))
  }

  predicate MemberHeaderAgrees(sha256: HexDigest, h: Header, m: Member, e: MemberEvidence) {
    && PaxFacts(h).Some?
    && var facts := PaxFacts(h).value;
       && facts.typeflag in {0x00, 0x30, 0x35}
       && (facts.typeflag == 0x35 <==> m.kind.Directory?)
       && (m.kind.Directory? ==> m.declaredSize == 0)
       && facts == HeaderFacts(facts.typeflag, e.baseSize, e.tar.mode, e.tar.mtime, e.tar.headerChecksum)
       && PaxHeaderName(h) == Some(e.baseName)
       && sha256(h) == e.tar.headerSha256
  }

  /** `pax_source_record`. */
  function SourceRecord(extensions: seq<Extension>, source: ValueSource, keyword: Keyword): Option<RecordEvidence> {
    if source.Ustar? || source.extension >= |extensions| then None
    else
      var e := extensions[source.extension];
      if e.kind.Global? != source.FromGlobal? || source.record >= |e.records| then None
      else if e.records[source.record].keyword == keyword then Some(e.records[source.record])
      else None
  }

  function EffectiveName(extensions: seq<Extension>, e: MemberEvidence, source: ValueSource): Option<seq<byte>> {
    var record := SourceRecord(extensions, source, Path);
    if source.Ustar? then Some(e.baseName)
    else if record.Some? then Some(record.value.rawValue)
    else None
  }

  function EffectiveSize(extensions: seq<Extension>, e: MemberEvidence, source: ValueSource): Option<u64> {
    var record := SourceRecord(extensions, source, Size);
    if source.Ustar? then Some(e.baseSize)
    else if record.Some? then record.value.parsedSize
    else None
  }

  /** The member's recorded sources are the given ones, and they yield its name and size. */
  predicate ValuesAgree(
    extensions: seq<Extension>, m: Member, e: MemberEvidence, pathSource: ValueSource, sizeSource: ValueSource)
  {
    && e.pathSource == pathSource
    && e.sizeSource == sizeSource
    && EffectiveName(extensions, e, pathSource) == Some(m.rawName)
    && PathValueOk(m.rawName)
    && m.decodedName == m.rawName
    && EffectiveSize(extensions, e, sizeSource) == Some(m.declaredSize)
  }

  predicate MemberOk(
    sha256: HexDigest, bytes: seq<byte>, extensions: seq<Extension>, m: Member,
    pathSource: ValueSource, sizeSource: ValueSource, at: nat, end: nat)
  {
    && m.evidence.Some?
    && var e := m.evidence.value;
       && AlignedRecord(e.tar.header, e.tar.payload, e.tar.padding, at, end)
       && e.tar.payload.len == m.declaredSize
       && Holds(bytes, e.tar.padding)
       && MemberHeaderAgrees(sha256, Slice(bytes, e.tar.header), m, e)
       && ValuesAgree(extensions, m, e, pathSource, sizeSource)
       && AllZero(Slice(bytes, e.tar.padding))
  }

  // ---- What acceptance of the whole area means ----

  /** Everything the replay reads. */
  datatype Input = Input(
    sha256: HexDigest, bytes: seq<byte>, extensions: seq<Extension>, members: seq<Member>, end: nat)

  /** How far a replay has come: records consumed, the next offset, and whether the last record was an extension. */
  datatype Position = Position(extension: nat, member: nat, cursor: nat, afterExtension: bool)

  predicate PendingLocal(x: Input, p: Position) {
    p.afterExtension && 0 < p.extension <= |x.extensions| && x.extensions[p.extension - 1].kind.Local?
  }

  predicate ExtensionFits(x: Input, p: Position) {
    && p.extension < |x.extensions|
    && !PendingLocal(x, p)
    && ExtensionOk(x.sha256, x.bytes, x.extensions[p.extension], p.cursor, x.end)
  }

  predicate MemberFits(x: Input, p: Position) {
    && p.extension <= |x.extensions|
    && p.member < |x.members|
    && MemberOk(x.sha256, x.bytes, x.extensions, x.members[p.member],
                Provenance(x.extensions, p.extension, p.afterExtension, Path),
                Provenance(x.extensions, p.extension, p.afterExtension, Size), p.cursor, x.end)
  }

  function AfterExtension(x: Input, p: Position): Position
    requires ExtensionFits(x, p)
  {
    Position(p.extension + 1, p.member, x.extensions[p.extension].padding.End(), true)
  }

  function AfterMember(x: Input, p: Position): Position
    requires MemberFits(x, p)
  {
    Position(p.extension, p.member + 1, x.members[p.member].evidence.value.tar.padding.End(), false)
  }

  /**
   The remaining records, in the given order (`true` for an extension), are consumed in list order from
   `p`, fill the area, follow each local extension with a member, and give each member its POSIX provenance.
   */
  predicate ReplaysFrom(x: Input, order: seq<bool>, p: Position)
    decreases order
  {
    if order == [] then
      p.cursor == x.end && p.extension == |x.extensions| && p.member == |x.members| && !PendingLocal(x, p)
    else if order[0] then
      ExtensionFits(x, p) && ReplaysFrom(x, order[1..], AfterExtension(x, p))
    else
      MemberFits(x, p) && ReplaysFrom(x, order[1..], AfterMember(x, p))
  }

  const START := Position(0, 0, 0, false)

  ghost predicate Replays(x: Input, p: Position) {
    exists order :: ReplaysFrom(x, order, p)
  }

  datatype ArchiveIr = ArchiveIr(
    format: ArchiveFormat,
    sourceDigest: SourceDigest,
    gzipOutput: Option<(u64, string)>,
    archive: Option<Archive>,
    members: seq<Member>)

  /** The snapshot is the one the evidence was made from. */
  predicate IdentityAgrees(snapshot: Snapshot, ir: ArchiveIr) {
    match ir.format
    case TarPax => ir.sourceDigest == snapshot.digest
    case TarGzipPax =>
      ir.gzipOutput.Some? && ir.gzipOutput.value.0 == |snapshot.bytes|
      && snapshot.digest == Available(ir.gzipOutput.value.1)
    case _ => false
  }

  function InputOf(sha256: HexDigest, snapshot: Snapshot, archive: Archive, members: seq<Member>): Input {
    Input(sha256, snapshot.bytes, archive.extensions, members, archive.tar.memberRecords.End())
  }

  ghost predicate AcceptsArchive(sha256: HexDigest, snapshot: Snapshot, ir: ArchiveIr) {
    && IdentityAgrees(snapshot, ir)
    && ir.archive.Some?
    && var a := ir.archive.value;
       && |a.extensions| <= MAX_EXTENSIONS
       && TarHeader.TopLevelTiles(snapshot.bytes, a.tar)
       && |snapshot.bytes| % BLOCK_LEN == 0
       && Replays(InputOf(sha256, snapshot, a, ir.members), START)
       && AllZero(Slice(snapshot.bytes, a.tar.terminator))
       && AllZero(Slice(snapshot.bytes, a.tar.trailingZeros))
  }

  // ---- The audit of one record ----

  /** `audit_one_pax_extension`: where the record ends, or `None`. */
  method AuditExtension(sha256: HexDigest, bytes: seq<byte>, e: Extension, at: nat, end: nat)
    returns (next: Option<nat>)
    ensures next == if ExtensionOk(sha256, bytes, e, at, end) then Some(e.padding.End()) else None
  {
    hide PaxFacts, PaxHeaderName, PaxRecords.Accepts;
    if !AlignedRecord(e.header, e.payload, e.padding, at, end) || e.payload.len > MAX_EXTENSION_BYTES {
      return None;
    }
    if e.header.End() > |bytes| {
      return None;
    }
    var h: Header := Slice(bytes, e.header);
    var facts := PaxFacts(h);
    if facts.None? {
      return None;
    }
    var expectedTypeflag := if e.kind.Global? then 0x67 else 0x78;
    if facts.value.typeflag != expectedTypeflag || facts.value.size != e.payload.len || facts.value.mode != e.mode
       || facts.value.mtime != e.mtime || facts.value.checksum != e.headerChecksum
       || !PaxHeaderNameMatches(h, e.rawName) || sha256(h) != e.headerSha256
    {
      return None;
    }
    if e.payload.End() > |bytes| {
      return None;
    }
    var payload := Slice(bytes, e.payload);
    if sha256(payload) != e.payloadSha256 {
      return None;
    }
    var recordsOk := AuditRecords(payload, e.payload.offset, e.records);
    if !recordsOk {
      return None;
    }
    var zero := AuditZeroRange(bytes, e.padding);
    return if zero then Some(e.padding.End()) else None;
  }

  /** The header half of `audit_one_pax_member`. */
  method AuditMemberHeader(sha256: HexDigest, h: Header, m: Member, e: MemberEvidence) returns (ok: bool)
    ensures ok <==> MemberHeaderAgrees(sha256, h, m, e)
  {
    hide PaxFacts, PaxHeaderName;
    var facts := PaxFacts(h);
    if facts.None? {
      return false;
    }
    var f := facts.value;
    var sourceIsDirectory := f.typeflag == 0x35;
    return !(f.typeflag !in {0x00, 0x30, 0x35} || sourceIsDirectory != m.kind.Directory?
             || (sourceIsDirectory && m.declaredSize != 0) || f.size != e.baseSize || f.mode != e.tar.mode
             || f.mtime != e.tar.mtime || f.checksum != e.tar.headerChecksum
             || !PaxHeaderNameMatches(h, e.baseName) || sha256(h) != e.tar.headerSha256);
  }

  /** The state of `PaxAuditOverrides`: where each keyword was last set. */
  datatype Overrides = Overrides(path: Option<ValueSource>, size: Option<ValueSource>)
  {
    function Get(k: Keyword): Option<ValueSource> {
      if k == Path then path else size
    }
  }

  function Or(a: Option<ValueSource>, b: Option<ValueSource>): Option<ValueSource> {
    if a.Some? then a else b
  }

  /** The override half of `audit_one_pax_member`, from the folded state. */
  method AuditMemberValues(
    extensions: seq<Extension>, m: Member, e: MemberEvidence, globals: Overrides, local: Option<Overrides>)
    returns (ok: bool)
    ensures ok <==>
            var found := if local.Some? then local.value else Overrides(None, None);
            var pathSource, sizeSource := Or(found.path, globals.path), Or(found.size, globals.size);
            ValuesAgree(extensions, m, e, if pathSource.Some? then pathSource.value else Ustar,
                        if sizeSource.Some? then sizeSource.value else Ustar)
  {
    var pathOption := Or(if local.Some? then local.value.path else None, globals.path);
    var sizeOption := Or(if local.Some? then local.value.size else None, globals.size);
    var expectedPath := if pathOption.Some? then pathOption.value else Ustar;
    var expectedSize := if sizeOption.Some? then sizeOption.value else Ustar;
    if e.pathSource != expectedPath || e.sizeSource != expectedSize {
      return false;
    }
    var name: seq<byte>;
    if expectedPath.Ustar? {
      name := e.baseName;
    } else {
      var record := SourceRecord(extensions, expectedPath, Path);
      if record.None? {
        return false;
      }
      name := record.value.rawValue;
    }
    var size: u64;
    if expectedSize.Ustar? {
      size := e.baseSize;
    } else {
      var record := SourceRecord(extensions, expectedSize, Size);
      if record.None? || record.value.parsedSize.None? {
        return false;
      }
      size := record.value.parsedSize.value;
    }
    return !(name == [] || |name| > MAX_EFFECTIVE_PATH_BYTES || 0 in name || !Utf8.Valid(name)
             || m.rawName != name || m.decodedName != name || m.declaredSize != size);
  }

  /** `audit_one_pax_member`. */
  method AuditMember(
    x: Input, member: nat, cursor: nat, globals: Overrides, local: Option<Overrides>, ghost p: Position)
    returns (next: Option<nat>)
    requires member == p.member && cursor == p.cursor
    requires p.extension <= |x.extensions| && p.member < |x.members|
    requires forall k :: globals.Get(k) == LastGlobal(x.extensions, p.extension, k)
    requires forall k :: (if local.Some? then local.value.Get(k) else None)
                         == LocalBefore(x.extensions, p.extension, p.afterExtension, k)
    ensures next.Some? <==> MemberFits(x, p)
    ensures next.Some? ==> next.value == AfterMember(x, p).cursor
  {
    hide ValuesAgree, MemberHeaderAgrees, LastGlobal, LocalBefore;
    var m := x.members[member];
    if m.evidence.None? {
      return None;
    }
    var e := m.evidence.value;
    if !AlignedRecord(e.tar.header, e.tar.payload, e.tar.padding, cursor, x.end)
       || e.tar.payload.len != m.declaredSize || e.tar.header.End() > |x.bytes|
    {
      return None;
    }
    var headerOk := AuditMemberHeader(x.sha256, Slice(x.bytes, e.tar.header), m, e);
    if !headerOk {
      return None;
    }
    assert globals.Get(Path) == globals.path && globals.Get(Size) == globals.size;
    assert local.Some? ==> local.value.Get(Path) == local.value.path && local.value.Get(Size) == local.value.size;
    var valuesOk := AuditMemberValues(x.extensions, m, e, globals, local);
    if !valuesOk {
      return None;
    }
    var zero := AuditZeroRange(x.bytes, e.tar.padding);
    return if zero then Some(e.tar.padding.End()) else None;
  }

  // ---- The replay loop ----

  /** `PaxAuditOverrides::from_extension`. */
  method FromExtension(e: Extension, index: nat) returns (state: Overrides)
    ensures forall k :: state.Get(k) ==
                        var r := LastRecord(e.records, k);
                        if r.None? then None
                        else if e.kind.Global? then Some(FromGlobal(index, r.value))
                        else Some(FromLocal(index, r.value))
  {
    state := Overrides(None, None);
    for i := 0 to |e.records|
      invariant forall k :: state.Get(k) ==
                            var r := LastRecord(e.records[..i], k);
                            if r.None? then None
                            else if e.kind.Global? then Some(FromGlobal(index, r.value))
                            else Some(FromLocal(index, r.value))
    {
      assert e.records[..i + 1][..i] == e.records[..i];
      var source := if e.kind.Global? then FromGlobal(index, i) else FromLocal(index, i);
      match e.records[i].keyword
      case Path => state := state.(path := Some(source));
      case Size => state := state.(size := Some(source));
    }
    assert e.records[..|e.records|] == e.records;
  }

  /** `PaxAuditOverrides::update_from`: a later global record replaces an earlier one. */
  function UpdateFrom(globals: Overrides, update: Overrides): Overrides {
    Overrides(Or(update.path, globals.path), Or(update.size, globals.size))
  }

  lemma {:induction false} LaterRecordsStartLater(x: Input, order: seq<bool>, p: Position)
    requires ReplaysFrom(x, order, p)
    ensures p.member < |x.members| ==>
              x.members[p.member].evidence.Some? && p.cursor <= x.members[p.member].evidence.value.tar.header.offset
    ensures forall e :: p.extension <= e < |x.extensions| ==> p.cursor <= x.extensions[e].header.offset
    decreases order
  {
    hide ExtensionHeaderAgrees, MemberHeaderAgrees, ValuesAgree, Provenance, PaxRecords.Accepts, AllZero;
    if order != [] {
      if order[0] {
        LaterRecordsStartLater(x, order[1..], AfterExtension(x, p));
      } else {
        LaterRecordsStartLater(x, order[1..], AfterMember(x, p));
      }
    }
  }

  /** The record at the cursor decides the next step, and two records never start at the same block. */
  lemma ReplayStep(x: Input, p: Position)
    ensures p.cursor < x.end ==>
              (Replays(x, p) <==>
                || (ExtensionFits(x, p) && Replays(x, AfterExtension(x, p)))
                || (MemberFits(x, p) && Replays(x, AfterMember(x, p))))
    ensures x.end <= p.cursor ==> (Replays(x, p) <==> ReplaysFrom(x, [], p))
    ensures ExtensionFits(x, p) && Replays(x, AfterExtension(x, p)) && p.member < |x.members| ==>
              && x.members[p.member].evidence.Some?
              && p.cursor < x.members[p.member].evidence.value.tar.header.offset
    ensures MemberFits(x, p) && Replays(x, AfterMember(x, p)) && p.extension < |x.extensions| ==>
              p.cursor < x.extensions[p.extension].header.offset
  {
    hide ExtensionHeaderAgrees, MemberHeaderAgrees, ValuesAgree, Provenance, PaxRecords.Accepts, AllZero;
    if Replays(x, p) {
      var order :| ReplaysFrom(x, order, p);
      if order != [] {
        assert order[0] ==> ReplaysFrom(x, order[1..], AfterExtension(x, p));
        assert !order[0] ==> ReplaysFrom(x, order[1..], AfterMember(x, p));
      }
    }
    if ExtensionFits(x, p) && Replays(x, AfterExtension(x, p)) {
      var rest :| ReplaysFrom(x, rest, AfterExtension(x, p));
      LaterRecordsStartLater(x, rest, AfterExtension(x, p));
      assert ([true] + rest)[1..] == rest;
      assert ReplaysFrom(x, [true] + rest, p);
    }
    if MemberFits(x, p) && Replays(x, AfterMember(x, p)) {
      var rest :| ReplaysFrom(x, rest, AfterMember(x, p));
      LaterRecordsStartLater(x, rest, AfterMember(x, p));
      assert ([false] + rest)[1..] == rest;
      assert ReplaysFrom(x, [false] + rest, p);
    }
  }

  /** One more extension: its records join the globals, or they are pending for the next record. */
  lemma SourcesStep(extensions: seq<Extension>, i: nat, next: nat, globals: Overrides, update: Overrides)
    requires i < |extensions| && next == i + 1
    requires forall k :: globals.Get(k) == LastGlobal(extensions, i, k)
    requires forall k :: update.Get(k) ==
                         var r := LastRecord(extensions[i].records, k);
                         if r.None? then None
                         else if extensions[i].kind.Global? then Some(FromGlobal(i, r.value))
                         else Some(FromLocal(i, r.value))
    ensures forall k ::
              (if extensions[i].kind.Global? then UpdateFrom(globals, update) else globals).Get(k) ==
              LastGlobal(extensions, next, k)
    ensures forall k ::
              (if extensions[i].kind.Global? then None else update.Get(k)) ==
              LocalBefore(extensions, next, true, k)
  {
    hide LastRecord;
  }

  lemma NothingPending(extensions: seq<Extension>, i: nat)
    requires i <= |extensions|
    ensures forall k :: LocalBefore(extensions, i, false, k) == None
  {
  }

  lemma NoSourcesYet(extensions: seq<Extension>)
    ensures forall k :: LastGlobal(extensions, 0, k) == None && LocalBefore(extensions, 0, false, k) == None
  {
  }

  /** The loop of `audit_tar_pax_covering` over extension and member evidence. */
  method AuditReplay(x: Input) returns (ok: bool)
    ensures ok <==> Replays(x, START)
  {
    hide ExtensionOk, MemberOk, Replays, LastGlobal, LocalBefore, LastRecord;
    NoSourcesYet(x.extensions);
    var cursor: nat, extensionIndex: nat, memberIndex: nat := 0, 0, 0;
    var globals := Overrides(None, None);
    var pendingLocal: Option<Overrides> := None;
    ghost var p := START;
    while cursor < x.end
      invariant extensionIndex <= |x.extensions| && memberIndex <= |x.members|
      invariant p == Position(extensionIndex, memberIndex, cursor, p.afterExtension)
      invariant Replays(x, START) <==> Replays(x, p)
      invariant forall k :: globals.Get(k) == LastGlobal(x.extensions, extensionIndex, k)
      invariant forall k :: (if pendingLocal.Some? then pendingLocal.value.Get(k) else None)
                            == LocalBefore(x.extensions, extensionIndex, p.afterExtension, k)
      invariant pendingLocal.Some? <==> PendingLocal(x, p)
      decreases (|x.extensions| - extensionIndex) + (|x.members| - memberIndex)
    {
      ReplayStep(x, p);
      RecordsStartAtCursor(x, p);
      var extensionHere := extensionIndex < |x.extensions| && x.extensions[extensionIndex].header.offset == cursor;
      var memberHere := memberIndex < |x.members| && x.members[memberIndex].evidence.Some?
                        && x.members[memberIndex].evidence.value.tar.header.offset == cursor;
      if extensionHere && !memberHere {
        if pendingLocal.Some? {
          return false;
        }
        var extension := x.extensions[extensionIndex];
        var next := AuditExtension(x.sha256, x.bytes, extension, cursor, x.end);
        if next.None? {
          return false;
        }
        var update := FromExtension(extension, extensionIndex);
        SourcesStep(x.extensions, extensionIndex, extensionIndex + 1, globals, update);
        if extension.kind.Global? {
          globals := UpdateFrom(globals, update);
        } else {
          pendingLocal := Some(update);
        }
        p := AfterExtension(x, p);
        cursor := next.value;
        extensionIndex := extensionIndex + 1;
      } else if !extensionHere && memberHere {
        var next := AuditMember(x, memberIndex, cursor, globals, pendingLocal, p);
        if next.None? {
          return false;
        }
        p := AfterMember(x, p);
        NothingPending(x.extensions, extensionIndex);
        cursor := next.value;
        pendingLocal := None;
        memberIndex := memberIndex + 1;
      } else {
        assert extensionHere ==> !Replays(x, p);
        return false;
      }
    }
    ReplayStep(x, p);
    if cursor != x.end || extensionIndex != |x.extensions| || memberIndex != |x.members| {
      return false;
    }
    return pendingLocal.None?;
  }

  lemma RecordsStartAtCursor(x: Input, p: Position)
    ensures ExtensionFits(x, p) ==> x.extensions[p.extension].header.offset == p.cursor
    ensures MemberFits(x, p) ==> x.members[p.member].evidence.Some?
                                 && x.members[p.member].evidence.value.tar.header.offset == p.cursor
  {
    hide ExtensionHeaderAgrees, MemberHeaderAgrees, ValuesAgree, Provenance, PaxRecords.Accepts, AllZero;
  }

  /** `audit_tar_pax_covering`. */
  method AuditCovering(sha256: HexDigest, snapshot: Snapshot, ir: ArchiveIr) returns (ok: bool)
    ensures ok <==> AcceptsArchive(sha256, snapshot, ir)
  {
    hide Replays, AllZero;
    if !IdentityAgrees(snapshot, ir) || ir.archive.None? {
      return false;
    }
    var a := ir.archive.value;
    if |a.extensions| > MAX_EXTENSIONS {
      return false;
    }
    if !TarHeader.TopLevelTiles(snapshot.bytes, a.tar) || |snapshot.bytes| % BLOCK_LEN != 0 {
      return false;
    }
    ok := AuditReplay(InputOf(sha256, snapshot, a, ir.members));
    if !ok {
      return;
    }
    ok := AuditZeroRange(snapshot.bytes, a.tar.terminator);
    if !ok {
      return;
    }
    ok := AuditZeroRange(snapshot.bytes, a.tar.trailingZeros);
  }

  // ---- Provenance in terms of source positions only ----

  /** Extensions already consumed end at or before the cursor; only one just consumed ends at it. */
  predicate Behind(x: Input, p: Position) {
    && p.extension <= |x.extensions|
    && (p.afterExtension ==> 0 < p.extension)
    && forall e :: 0 <= e < p.extension ==>
         && x.extensions[e].header.offset < p.cursor
         && x.extensions[e].padding.End() <= p.cursor
         && (x.extensions[e].padding.End() == p.cursor <==> p.afterExtension && e == p.extension - 1)
  }

  lemma BehindSteps(x: Input, p: Position)
    requires Behind(x, p)
    ensures ExtensionFits(x, p) ==> Behind(x, AfterExtension(x, p))
    ensures MemberFits(x, p) ==> Behind(x, AfterMember(x, p))
  {
    hide ExtensionHeaderAgrees, MemberHeaderAgrees, ValuesAgree, Provenance, PaxRecords.Accepts, AllZero;
  }

  /** The point of an accepted replay at which member `m` is consumed. */
  lemma {:induction false} MemberPosition(x: Input, order: seq<bool>, p: Position, m: nat) returns (q: Position)
    requires ReplaysFrom(x, order, p) && Behind(x, p) && p.member <= m < |x.members|
    ensures q.member == m && MemberFits(x, q) && Behind(x, q)
    ensures forall e :: q.extension <= e < |x.extensions| ==> q.cursor <= x.extensions[e].header.offset
    decreases order
  {
    hide ExtensionOk, MemberOk, Provenance;
    LaterRecordsStartLater(x, order, p);
    BehindSteps(x, p);
    if order[0] {
      q := MemberPosition(x, order[1..], AfterExtension(x, p), m);
    } else if p.member == m {
      q := p;
    } else {
      q := MemberPosition(x, order[1..], AfterMember(x, p), m);
    }
  }

  /** A global extension that sets the keyword and starts before `at`. */
  predicate GlobalSets(x: Input, e: nat, keyword: Keyword, at: nat) {
    && e < |x.extensions|
    && x.extensions[e].kind.Global?
    && x.extensions[e].header.offset < at
    && LastRecord(x.extensions[e].records, keyword).Some?
  }

  /** A local extension that sets the keyword and ends exactly where the member's header begins. */
  predicate LocalSets(x: Input, e: nat, keyword: Keyword, at: nat) {
    && e < |x.extensions|
    && x.extensions[e].kind.Local?
    && x.extensions[e].padding.End() == at
    && LastRecord(x.extensions[e].records, keyword).Some?
  }

  /** POSIX precedence for a member whose header is at offset `at`, told by offsets alone. */
  ghost predicate IsProvenance(x: Input, at: nat, keyword: Keyword, source: ValueSource) {
    match source
    case FromLocal(e, r) =>
      LocalSets(x, e, keyword, at) && LastRecord(x.extensions[e].records, keyword) == Some(r)
    case FromGlobal(e, r) =>
      && GlobalSets(x, e, keyword, at) && LastRecord(x.extensions[e].records, keyword) == Some(r)
      && (forall g: nat :: e < g ==> !GlobalSets(x, g, keyword, at))
      && (forall l: nat :: !LocalSets(x, l, keyword, at))
    case Ustar =>
      && (forall g: nat :: !GlobalSets(x, g, keyword, at))
      && (forall l: nat :: !LocalSets(x, l, keyword, at))
  }

  lemma {:induction false} LastGlobalIsLast(x: Input, i: nat, keyword: Keyword)
    requires i <= |x.extensions|
    ensures var s := LastGlobal(x.extensions, i, keyword);
            if s.None? then
              forall g :: 0 <= g < i && x.extensions[g].kind.Global? ==>
                LastRecord(x.extensions[g].records, keyword).None?
            else
              && x.extensions[s.value.extension].kind.Global?
              && LastRecord(x.extensions[s.value.extension].records, keyword) == Some(s.value.record)
              && forall g :: s.value.extension < g < i && x.extensions[g].kind.Global? ==>
                   LastRecord(x.extensions[g].records, keyword).None?
  {
    if i > 0 {
      LastGlobalIsLast(x, i - 1, keyword);
    }
  }

  lemma ProvenanceByOffset(x: Input, q: Position, keyword: Keyword)
    requires Behind(x, q)
    requires forall e :: q.extension <= e < |x.extensions| ==>
               q.cursor <= x.extensions[e].header.offset < x.extensions[e].padding.End()
    ensures IsProvenance(x, q.cursor, keyword, Provenance(x.extensions, q.extension, q.afterExtension, keyword))
  {
    hide LastRecord;
    LastGlobalIsLast(x, q.extension, keyword);
  }

  /** Every extension of an accepted replay occupies at least its header block. */
  lemma {:induction false} ExtensionSpans(x: Input, order: seq<bool>, p: Position)
    requires ReplaysFrom(x, order, p)
    ensures forall e :: p.extension <= e < |x.extensions| ==>
              && x.extensions[e].header.offset < x.extensions[e].padding.End()
              && (x.extensions[e].kind.Local? ==>
                  exists m :: 0 <= m < |x.members| && MemberAt(x, m, x.extensions[e].padding.End()))
    decreases order
  {
    hide ExtensionHeaderAgrees, MemberHeaderAgrees, ValuesAgree, Provenance, PaxRecords.Accepts, AllZero;
    if order != [] {
      if order[0] {
        var q := AfterExtension(x, p);
        ExtensionSpans(x, order[1..], q);
        if x.extensions[p.extension].kind.Local? {
          assert order[1..] != [] && !order[1..][0];
          assert MemberAt(x, q.member, q.cursor);
        }
      } else {
        ExtensionSpans(x, order[1..], AfterMember(x, p));
      }
    }
  }

  predicate MemberAt(x: Input, m: nat, at: nat) {
    m < |x.members| && x.members[m].evidence.Some? && x.members[m].evidence.value.tar.header.offset == at
  }

  /**
   Last writer wins: in an accepted archive the recorded source of a member's path and of its size is the
   local extension that ends at its header if that sets the keyword, else the last earlier global extension
   that sets it, else the ustar header, and the effective name and size are the ones found there.
   */
  lemma MemberValuesHavePosixProvenance(x: Input, m: nat)
    requires Replays(x, START) && m < |x.members|
    ensures x.members[m].evidence.Some?
    ensures var e := x.members[m].evidence.value;
            && IsProvenance(x, e.tar.header.offset, Path, e.pathSource)
            && IsProvenance(x, e.tar.header.offset, Size, e.sizeSource)
            && EffectiveName(x.extensions, e, e.pathSource) == Some(x.members[m].rawName)
            && EffectiveSize(x.extensions, e, e.sizeSource) == Some(x.members[m].declaredSize)
  {
    hide ExtensionHeaderAgrees, MemberHeaderAgrees, PaxRecords.Accepts, AllZero, Provenance, IsProvenance;
    var order :| ReplaysFrom(x, order, START);
    ExtensionSpans(x, order, START);
    var q := MemberPosition(x, order, START, m);
    ProvenanceByOffset(x, q, Path);
    ProvenanceByOffset(x, q, Size);
  }

  /** No local extension dangles: a member header follows it immediately. */
  lemma LocalExtensionIsFollowedByMember(x: Input, e: nat)
    requires Replays(x, START) && e < |x.extensions| && x.extensions[e].kind.Local?
    ensures exists m :: 0 <= m < |x.members| && MemberAt(x, m, x.extensions[e].padding.End())
  {
    var order :| ReplaysFrom(x, order, START);
    ExtensionSpans(x, order, START);
  }

  /** A replayed source always refers to an existing record of its kind and keyword. */
  lemma ProvenanceResolves(extensions: seq<Extension>, i: nat, afterExtension: bool, keyword: Keyword)
    requires i <= |extensions|
    ensures var source := Provenance(extensions, i, afterExtension, keyword);
            source.Ustar? || SourceRecord(extensions, source, keyword).Some?
  {
    var x := Input(_ => "", [], extensions, [], 0);
    LastGlobalIsLast(x, i, keyword);
  }

  // ---- Extension and member records tile the area ----

  function ExtensionSpan(e: Extension): CheckedInterval {
    if e.header.offset <= e.padding.End() then Interval(e.header.offset, e.padding.End()) else Interval(0, 0)
  }

  function MemberSpan(m: Member): CheckedInterval {
    if m.evidence.Some? && m.evidence.value.tar.header.offset <= m.evidence.value.tar.padding.End() then
      Interval(m.evidence.value.tar.header.offset, m.evidence.value.tar.padding.End())
    else Interval(0, 0)
  }

  function Spans(x: Input, i: nat, j: nat): seq<CheckedInterval>
    requires i <= |x.extensions| && j <= |x.members|
    decreases |x.extensions| - i + |x.members| - j
  {
    if i < |x.extensions| then [ExtensionSpan(x.extensions[i])] + Spans(x, i + 1, j)
    else if j < |x.members| then [MemberSpan(x.members[j])] + Spans(x, i, j + 1)
    else []
  }

  lemma {:induction false} SpansTakeMember(x: Input, i: nat, j: nat)
    requires i <= |x.extensions| && j < |x.members|
    ensures multiset(Spans(x, i, j)) == multiset{MemberSpan(x.members[j])} + multiset(Spans(x, i, j + 1))
    decreases |x.extensions| - i
  {
    if i < |x.extensions| {
      SpansTakeMember(x, i + 1, j);
    }
  }

  lemma StepSpans(x: Input, p: Position)
    ensures ExtensionFits(x, p) ==>
              var span := ExtensionSpan(x.extensions[p.extension]);
              span.start == p.cursor < span.end == AfterExtension(x, p).cursor
    ensures MemberFits(x, p) ==>
              var span := MemberSpan(x.members[p.member]);
              span.start == p.cursor < span.end == AfterMember(x, p).cursor
  {
    hide ExtensionHeaderAgrees, MemberHeaderAgrees, ValuesAgree, Provenance, PaxRecords.Accepts, AllZero;
  }

  /** The spans of the remaining records in replay order. */
  function InOrder(x: Input, order: seq<bool>, p: Position): seq<CheckedInterval>
    requires ReplaysFrom(x, order, p)
    decreases order
  {
    if order == [] then []
    else if order[0] then [ExtensionSpan(x.extensions[p.extension])] + InOrder(x, order[1..], AfterExtension(x, p))
    else [MemberSpan(x.members[p.member])] + InOrder(x, order[1..], AfterMember(x, p))
  }

  lemma {:induction false} InOrderIsChain(x: Input, order: seq<bool>, p: Position)
    requires ReplaysFrom(x, order, p)
    ensures Chain(p.cursor, InOrder(x, order, p), x.end)
    decreases order
  {
    hide ExtensionOk, MemberOk, Provenance, ExtensionSpan, MemberSpan;
    if order != [] {
      StepSpans(x, p);
      if order[0] {
        InOrderIsChain(x, order[1..], AfterExtension(x, p));
      } else {
        InOrderIsChain(x, order[1..], AfterMember(x, p));
      }
    }
  }

  lemma InOrderAfterExtension(x: Input, order: seq<bool>, p: Position)
    requires ReplaysFrom(x, order, p) && order != [] && order[0]
    requires p.extension < |x.extensions| && p.member <= |x.members|
    requires multiset(InOrder(x, order[1..], AfterExtension(x, p))) == multiset(Spans(x, p.extension + 1, p.member))
    ensures multiset(InOrder(x, order, p)) == multiset(Spans(x, p.extension, p.member))
  {
    hide ReplaysFrom, ExtensionFits, MemberFits, AfterExtension, AfterMember, ExtensionSpan, MemberSpan;
  }

  lemma InOrderAfterMember(x: Input, order: seq<bool>, p: Position)
    requires ReplaysFrom(x, order, p) && order != [] && !order[0]
    requires p.extension <= |x.extensions| && p.member < |x.members|
    requires multiset(InOrder(x, order[1..], AfterMember(x, p))) == multiset(Spans(x, p.extension, p.member + 1))
    ensures multiset(InOrder(x, order, p)) == multiset(Spans(x, p.extension, p.member))
  {
    SpansTakeMember(x, p.extension, p.member);
    hide ReplaysFrom, ExtensionFits, MemberFits, AfterExtension, AfterMember, ExtensionSpan, MemberSpan, Spans;
  }

  lemma {:induction false} InOrderIsComplete(x: Input, order: seq<bool>, p: Position)
    requires ReplaysFrom(x, order, p) && p.extension <= |x.extensions| && p.member <= |x.members|
    ensures multiset(InOrder(x, order, p)) == multiset(Spans(x, p.extension, p.member))
    decreases order
  {
    hide ExtensionOk, MemberOk, Provenance, ExtensionSpan, MemberSpan, LastGlobal, LocalBefore;
    if order == [] {
      assert InOrder(x, order, p) == Spans(x, p.extension, p.member) == [];
    } else if order[0] {
      hide InOrder, Spans;
      InOrderIsComplete(x, order[1..], AfterExtension(x, p));
      InOrderAfterExtension(x, order, p);
    } else {
      hide InOrder, Spans;
      InOrderIsComplete(x, order[1..], AfterMember(x, p));
      InOrderAfterMember(x, order, p);
    }
  }

  /** Every byte of the member-record area belongs to exactly one extension or member record. */
  lemma RecordsTileTheArea(x: Input)
    requires Replays(x, START)
    ensures ExactCover(Interval(0, x.end), Spans(x, 0, 0))
  {
    var order :| ReplaysFrom(x, order, START);
    var chain := InOrder(x, order, START);
    InOrderIsChain(x, order, START);
    InOrderIsComplete(x, order, START);
    ChainFacts(0, chain, x.end);
    SweepAcceptsChains(Interval(0, x.end), chain);
    SortThenSweep(Interval(0, x.end), Spans(x, 0, 0), chain);
  }

  // ---- One source, one evidence ----

  /** No record starts in a zero block, because a header holds the magic. */
  lemma ZeroBlockIsNoHeader(h: Header)
    requires AllZero(h)
    ensures PaxFacts(h).None?
  {
    assert h[257..265][0] == h[257] == 0;
  }

  /** Two extensions accepted at one place are the same. */
  lemma ExtensionsAgreeAlike(x: Input, y: Input, a: Extension, b: Extension, at: nat)
    requires x.bytes == y.bytes && x.sha256 == y.sha256
    requires ExtensionOk(x.sha256, x.bytes, a, at, x.end) && ExtensionOk(y.sha256, y.bytes, b, at, y.end)
    ensures a == b
  {
    hide PaxFacts, PaxHeaderName, PaxRecords.Accepts, AllZero;
    assert Slice(x.bytes, a.header) == Slice(y.bytes, b.header);
    PaxRecords.EvidenceIsUnique(Slice(x.bytes, a.payload), a.payload.offset, a.records, b.records);
  }

  /** Provenance looks only at the extensions before the member. */
  lemma {:induction false} GlobalsOfPrefix(a: seq<Extension>, b: seq<Extension>, i: nat, keyword: Keyword)
    requires i <= |a| && i <= |b| && a[..i] == b[..i]
    ensures LastGlobal(a, i, keyword) == LastGlobal(b, i, keyword)
  {
    hide LastRecord;
    if i > 0 {
      assert a[i - 1] == a[..i][i - 1] == b[..i][i - 1] == b[i - 1];
      assert a[..i - 1] == a[..i][..i - 1] == b[..i][..i - 1] == b[..i - 1];
      GlobalsOfPrefix(a, b, i - 1, keyword);
    }
  }

  lemma ProvenanceOfPrefix(a: seq<Extension>, b: seq<Extension>, i: nat, after: bool, keyword: Keyword)
    requires i <= |a| && i <= |b| && a[..i] == b[..i]
    ensures var source := Provenance(a, i, after, keyword);
            source == Provenance(b, i, after, keyword)
            && SourceRecord(a, source, keyword) == SourceRecord(b, source, keyword)
  {
    hide LastRecord;
    GlobalsOfPrefix(a, b, i, keyword);
    assert i > 0 ==> a[i - 1] == a[..i][i - 1] == b[..i][i - 1] == b[i - 1];
    hide LastGlobal;
    var source := Provenance(a, i, after, keyword);
    assert !source.Ustar? ==> source.extension < i;
    assert !source.Ustar? ==>
           a[source.extension] == a[..i][source.extension] == b[..i][source.extension] == b[source.extension];
  }

  /** Two members accepted at one place after the same extensions are the same. */
  lemma MembersAgreeAlike(x: Input, y: Input, p: Position, a: Member, b: Member)
    requires x.bytes == y.bytes && x.sha256 == y.sha256 && p.extension <= |x.extensions|
             && p.extension <= |y.extensions|
    requires x.extensions[..p.extension] == y.extensions[..p.extension]
    requires MemberFits(x, p) && a == x.members[p.member] && MemberFits(y, p) && b == y.members[p.member]
    ensures a == b
  {
    ProvenanceOfPrefix(x.extensions, y.extensions, p.extension, p.afterExtension, Path);
    ProvenanceOfPrefix(x.extensions, y.extensions, p.extension, p.afterExtension, Size);
    hide PaxFacts, PaxHeaderName, PathValueOk, AllZero, Provenance, SourceRecord;
    assert Slice(x.bytes, a.evidence.value.tar.header) == Slice(y.bytes, b.evidence.value.tar.header);
  }

  /** The header at the cursor tells whether an extension or a member comes next. */
  lemma HeaderDecidesKind(x: Input, y: Input, p: Position)
    requires x.bytes == y.bytes && ExtensionFits(x, p)
    ensures !MemberFits(y, p)
  {
    hide PaxFacts, PaxHeaderName, PaxRecords.Accepts, AllZero, Provenance, ValuesAgree;
  }

  /** A record needs a header block that is not zero, and room for it. */
  lemma RecordNeedsHeader(x: Input, p: Position)
    requires ExtensionFits(x, p) || MemberFits(x, p)
    ensures p.cursor + BLOCK_LEN <= x.end && p.cursor + BLOCK_LEN <= |x.bytes|
    ensures !AllZero(x.bytes[p.cursor..p.cursor + BLOCK_LEN])
  {
    hide PaxFacts, PaxHeaderName, PaxRecords.Accepts, AllZero, Provenance, ValuesAgree;
    var block := x.bytes[p.cursor..p.cursor + BLOCK_LEN];
    if AllZero(block) { ZeroBlockIsNoHeader(block); }
  }

  predicate ZeroBlockFollows(x: Input) {
    x.end + BLOCK_LEN <= |x.bytes| && AllZero(x.bytes[x.end..x.end + BLOCK_LEN])
  }

  /** Two replays of the same bytes take the same records and read them alike. */
  lemma {:induction false} SameRecords(x: Input, y: Input, order: seq<bool>, other: seq<bool>, p: Position)
    requires x.bytes == y.bytes && x.sha256 == y.sha256 && ZeroBlockFollows(x) && ZeroBlockFollows(y)
    requires ReplaysFrom(x, order, p) && ReplaysFrom(y, other, p)
    requires p.extension <= |x.extensions| && p.extension <= |y.extensions|
    requires x.extensions[..p.extension] == y.extensions[..p.extension]
    ensures x.end == y.end && x.extensions == y.extensions && |x.members| == |y.members|
    ensures forall n :: p.member <= n < |x.members| ==> x.members[n] == y.members[n]
    decreases order
  {
    hide ExtensionFits, MemberFits, AllZero;
    if order == [] && other == [] {
      assert x.extensions[..p.extension] == x.extensions && y.extensions[..p.extension] == y.extensions;
    } else if order == [] {
      RecordNeedsHeader(y, p);
    } else if other == [] {
      RecordNeedsHeader(x, p);
    } else if order[0] {
      if !other[0] {
        HeaderDecidesKind(x, y, p);
      } else {
        SameExtensionStep(x, y, p);
        SameRecords(x, y, order[1..], other[1..], AfterExtension(x, p));
      }
    } else if other[0] {
      HeaderDecidesKind(y, x, p);
    } else {
      SameMemberStep(x, y, p);
      SameRecords(x, y, order[1..], other[1..], AfterMember(x, p));
    }
  }

  lemma SameExtensionStep(x: Input, y: Input, p: Position)
    requires x.bytes == y.bytes && x.sha256 == y.sha256 && ExtensionFits(x, p) && ExtensionFits(y, p)
    requires x.extensions[..p.extension] == y.extensions[..p.extension]
    ensures AfterExtension(x, p) == AfterExtension(y, p)
    ensures p.extension < |x.extensions| && p.extension < |y.extensions|
    ensures x.extensions[..p.extension + 1] == y.extensions[..p.extension + 1]
  {
    hide ExtensionOk;
    var i := p.extension;
    ExtensionsAgreeAlike(x, y, x.extensions[i], y.extensions[i], p.cursor);
    assert x.extensions[..i + 1] == x.extensions[..i] + [x.extensions[i]];
    assert y.extensions[..i + 1] == y.extensions[..i] + [y.extensions[i]];
  }

  lemma SameMemberStep(x: Input, y: Input, p: Position)
    requires x.bytes == y.bytes && x.sha256 == y.sha256 && MemberFits(x, p) && MemberFits(y, p)
    requires p.extension <= |x.extensions| && p.extension <= |y.extensions|
    requires x.extensions[..p.extension] == y.extensions[..p.extension]
    ensures p.member < |x.members| && p.member < |y.members| && x.members[p.member] == y.members[p.member]
    ensures AfterMember(x, p) == AfterMember(y, p)
  {
    MembersAgreeAlike(x, y, p, x.members[p.member], y.members[p.member]);
  }

  /** One interpretation or nothing: two archives accepted for the same bytes are the same in every claim. */
  lemma EvidenceIsUnique(sha256: HexDigest, snapshot: Snapshot, a: ArchiveIr, b: ArchiveIr)
    requires AcceptsArchive(sha256, snapshot, a) && AcceptsArchive(sha256, snapshot, b)
    ensures a.archive == b.archive && a.members == b.members
  {
    hide ReplaysFrom, IdentityAgrees;
    var x := InputOf(sha256, snapshot, a.archive.value, a.members);
    var y := InputOf(sha256, snapshot, b.archive.value, b.members);
    TerminatorFollows(sha256, snapshot, a);
    TerminatorFollows(sha256, snapshot, b);
    hide ZeroBlockFollows, AllZero;
    var order :| ReplaysFrom(x, order, START);
    var other :| ReplaysFrom(y, other, START);
    assert x.extensions[..0] == y.extensions[..0];
    SameRecords(x, y, order, other, START);
  }

  lemma TerminatorFollows(sha256: HexDigest, snapshot: Snapshot, ir: ArchiveIr)
    requires AcceptsArchive(sha256, snapshot, ir)
    ensures ZeroBlockFollows(InputOf(sha256, snapshot, ir.archive.value, ir.members))
  {
    hide Replays, IdentityAgrees;
    var tar := ir.archive.value.tar;
    var end := tar.memberRecords.End();
    assert snapshot.bytes[end..end + BLOCK_LEN] == Slice(snapshot.bytes, tar.terminator)[..BLOCK_LEN];
  }
}
