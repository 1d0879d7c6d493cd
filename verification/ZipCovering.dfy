/** The codec-free ZIP32 covering audit: every source byte has exactly one owner. */
module ZipCovering {
  import opened Prelude
  import opened Intervals

  const LFH_SIG: seq<byte> := [0x50, 0x4b, 0x03, 0x04]
  const CDH_SIG: seq<byte> := [0x50, 0x4b, 0x01, 0x02]
  const EOCD_SIG: seq<byte> := [0x50, 0x4b, 0x05, 0x06]

  datatype SourceRanges = SourceRanges(
    localHeader: ByteRange,
    payload: ByteRange,
    descriptor: Option<ByteRange>,
    centralHeader: ByteRange)
  {
    /** Where the local record stops: after the descriptor if there is one. */
    function LocalEnd(): nat {
      if descriptor.Some? then descriptor.value.End() else payload.End()
    }
  }

  /** A member whose evidence is `None` carries the evidence of another format. */
  datatype Member = Member(evidence: Option<SourceRanges>)

  datatype Covering = Covering(
    localRecords: ByteRange,
    centralDirectory: ByteRange,
    eocd: ByteRange,
    comment: ByteRange)

  datatype ArchiveIr = ArchiveIr(sourceDigest: SourceDigest, covering: Option<Covering>, members: seq<Member>)

  // ---- What acceptance means ----

  predicate HasSignature(bytes: seq<byte>, offset: nat, signature: seq<byte>) {
    offset + |signature| <= |bytes| && bytes[offset..offset + |signature|] == signature
  }

  /** The four top-level ranges are consecutive, start at zero and end with the source. */
  predicate TopLevelTiles(bytes: seq<byte>, c: Covering) {
    && c.localRecords.EndFits() && c.centralDirectory.EndFits() && c.eocd.EndFits() && c.comment.EndFits()
    && c.localRecords.offset == 0
    && c.eocd.len == 22
    && c.localRecords.End() == c.centralDirectory.offset
    && c.centralDirectory.End() == c.eocd.offset
    && c.eocd.End() == c.comment.offset
    && c.comment.End() == |bytes|
  }

  /** The EOCD fields of APPNOTE 4.3.16 agree with the covering and the member count. */
  predicate EocdAgrees(eocd: seq<byte>, c: Covering, memberCount: nat)
    requires |eocd| == 22
  {
    && eocd[0..4] == EOCD_SIG
    && LeU16(eocd, 4) == 0
    && LeU16(eocd, 6) == 0
    && LeU16(eocd, 8) == LeU16(eocd, 10) == memberCount
    && LeU32(eocd, 12) == c.centralDirectory.len
    && LeU32(eocd, 16) == c.centralDirectory.offset
    && LeU16(eocd, 20) == c.comment.len
  }

  /** Local facts of one member: signatures, minimum lengths, and header, payload, descriptor abut. */
  predicate MemberAgrees(bytes: seq<byte>, m: Member) {
    && m.evidence.Some?
    && var r := m.evidence.value;
       && r.localHeader.EndFits() && r.payload.EndFits() && r.centralHeader.EndFits()
       && r.localHeader.len >= 30
       && r.centralHeader.len >= 46
       && HasSignature(bytes, r.localHeader.offset, LFH_SIG)
       && HasSignature(bytes, r.centralHeader.offset, CDH_SIG)
       && r.localHeader.End() == r.payload.offset
       && (r.descriptor.Some? ==> r.descriptor.value.EndFits() && r.payload.End() == r.descriptor.value.offset)
  }

  function LocalRecord(m: Member): CheckedInterval {
    if m.evidence.Some? && m.evidence.value.localHeader.offset <= m.evidence.value.LocalEnd() then
      Interval(m.evidence.value.localHeader.offset, m.evidence.value.LocalEnd())
    else
      Interval(0, 0)
  }

  function CentralRecord(m: Member): CheckedInterval {
    if m.evidence.Some? then OfRange(m.evidence.value.centralHeader) else Interval(0, 0)
  }

  function LocalRecords(members: seq<Member>): seq<CheckedInterval> {
    seq(|members|, i requires 0 <= i < |members| => LocalRecord(members[i]))
  }

  function CentralRecords(members: seq<Member>): seq<CheckedInterval> {
    seq(|members|, i requires 0 <= i < |members| => CentralRecord(members[i]))
  }

  ghost predicate Accepts(snapshot: Snapshot, ir: ArchiveIr) {
    && ir.sourceDigest == snapshot.digest
    && ir.covering.Some?
    && var c := ir.covering.value;
       && TopLevelTiles(snapshot.bytes, c)
       && EocdAgrees(Slice(snapshot.bytes, c.eocd), c, |ir.members|)
       && (forall i :: 0 <= i < |ir.members| ==> MemberAgrees(snapshot.bytes, ir.members[i]))
       && ExactCover(OfRange(c.localRecords), LocalRecords(ir.members))
       && ExactCover(OfRange(c.centralDirectory), CentralRecords(ir.members))
  }

  // ---- The audit ----

  /** `read_exact_at` of a four-byte signature followed by the comparison. */
  method SignatureAt(bytes: seq<byte>, offset: nat, signature: seq<byte>) returns (found: bool)
    ensures found <==> HasSignature(bytes, offset, signature)
  {
    if offset + |signature| > |bytes| {
      return false;
    }
    var read := bytes[offset..offset + |signature|];
    return read == signature;
  }

  /** The checks of one loop iteration, returning the two intervals it pushes. */
  method AuditMember(bytes: seq<byte>, m: Member, local: CheckedInterval, central: CheckedInterval)
    returns (ok: bool, localRecord: CheckedInterval, centralRecord: CheckedInterval)
    ensures ok <==> MemberAgrees(bytes, m) && local.Contains(LocalRecord(m)) && central.Contains(CentralRecord(m))
    ensures ok ==> localRecord == LocalRecord(m) && centralRecord == CentralRecord(m)
  {
    ok, localRecord, centralRecord := false, Interval(0, 0), Interval(0, 0);
    if m.evidence.None? {
      return;
    }
    var r := m.evidence.value;
    if !r.localHeader.EndFits() || !r.payload.EndFits() || !r.centralHeader.EndFits() {
      return;
    }
    var localHeader, payload, centralHeader := OfRange(r.localHeader), OfRange(r.payload), OfRange(r.centralHeader);
    if r.descriptor.Some? && !r.descriptor.value.EndFits() {
      return;
    }
    if r.localHeader.len < 30 || r.centralHeader.len < 46 {
      return;
    }
    var lfh := SignatureAt(bytes, r.localHeader.offset, LFH_SIG);
    if !lfh {
      return;
    }
    var cdh := SignatureAt(bytes, r.centralHeader.offset, CDH_SIG);
    if !cdh {
      return;
    }
    if !central.Contains(centralHeader) || localHeader.end != payload.start {
      return;
    }
    if r.descriptor.Some? && payload.end != r.descriptor.value.offset {
      return;
    }
    var localEnd := if r.descriptor.Some? then r.descriptor.value.End() else payload.end;
    var record: CheckedInterval := Interval(localHeader.start, localEnd);
    if record.IsEmpty() || !local.Contains(record) || !record.Contains(payload) {
      return;
    }
    if r.descriptor.Some? && !record.Contains(OfRange(r.descriptor.value)) {
      return;
    }
    return true, record, centralHeader;
  }

  /** The loop over the member list; `sort_unstable_by_key` and the sweep come after it. */
  method AuditMembers(bytes: seq<byte>, members: seq<Member>, local: CheckedInterval, central: CheckedInterval)
    returns (ok: bool, localRanges: seq<CheckedInterval>, centralRanges: seq<CheckedInterval>)
    ensures ok ==> localRanges == LocalRecords(members) && centralRanges == CentralRecords(members)
    ensures ok ==> forall i :: 0 <= i < |members| ==> MemberAgrees(bytes, members[i])
    ensures !ok ==> !((forall i :: 0 <= i < |members| ==> MemberAgrees(bytes, members[i]))
                      && ExactCover(local, LocalRecords(members)) && ExactCover(central, CentralRecords(members)))
  {
    localRanges, centralRanges := [], [];
    for i := 0 to |members|
      invariant localRanges == LocalRecords(members)[..i]
      invariant centralRanges == CentralRecords(members)[..i]
      invariant forall j :: 0 <= j < i ==> MemberAgrees(bytes, members[j])
    {
      var agrees, localRecord, centralRecord := AuditMember(bytes, members[i], local, central);
      if !agrees {
        PartsStayInside(local, LocalRecords(members));
        PartsStayInside(central, CentralRecords(members));
        assert LocalRecords(members)[i] == LocalRecord(members[i]);
        assert CentralRecords(members)[i] == CentralRecord(members[i]);
        return false, localRanges, centralRanges;
      }
      localRanges, centralRanges := localRanges + [localRecord], centralRanges + [centralRecord];
    }
    ok := true;
  }

  method AuditPartition(outer: CheckedInterval, parts: seq<CheckedInterval>) returns (ok: bool)
    ensures ok <==> ExactCover(outer, parts)
  {
    var ordered := SortByStart(parts);
    SortThenSweep(outer, parts, ordered);
    ok := ValidateOrderedPartition(outer, ordered) == Partition;
  }

  /** The fixed part of the audit: top-level ranges, then the EOCD fields. */
  method AuditTopLevel(bytes: seq<byte>, c: Covering, memberCount: nat) returns (ok: bool)
    ensures ok <==> TopLevelTiles(bytes, c) && EocdAgrees(Slice(bytes, c.eocd), c, memberCount)
  {
    if !c.localRecords.EndFits() || !c.centralDirectory.EndFits() || !c.eocd.EndFits() || !c.comment.EndFits() {
      return false;
    }
    if c.localRecords.offset != 0 || c.eocd.len != 22 {
      return false;
    }
    if c.localRecords.End() != c.centralDirectory.offset || c.centralDirectory.End() != c.eocd.offset
       || c.eocd.End() != c.comment.offset || c.comment.End() != |bytes|
    {
      return false;
    }
    var eocd := bytes[c.eocd.offset..c.eocd.offset + 22];
    if eocd[0..4] != EOCD_SIG {
      return false;
    }
    var thisDisk, cdDisk := LeU16(eocd, 4), LeU16(eocd, 6);
    var thisCount, totalCount := LeU16(eocd, 8), LeU16(eocd, 10);
    if thisDisk != 0 || cdDisk != 0 || thisCount != totalCount || totalCount != memberCount {
      return false;
    }
    var cdSize, cdOffset := LeU32(eocd, 12), LeU32(eocd, 16);
    var commentLen := LeU16(eocd, 20);
    return cdOffset == c.centralDirectory.offset && cdSize == c.centralDirectory.len && commentLen == c.comment.len;
  }

  /** `audit_covering_fallible`. */
  method AuditCovering(snapshot: Snapshot, ir: ArchiveIr) returns (ok: bool)
    ensures ok <==> Accepts(snapshot, ir)
  {
    hide EocdAgrees, TopLevelTiles, MemberAgrees, ExactCover;
    if ir.sourceDigest != snapshot.digest || ir.covering.None? {
      return false;
    }
    var c := ir.covering.value;
    ok := AuditTopLevel(snapshot.bytes, c, |ir.members|);
    if !ok {
      return false;
    }
    var localCover, centralCover := OfRange(c.localRecords), OfRange(c.centralDirectory);
    var localRanges, centralRanges;
    ok, localRanges, centralRanges := AuditMembers(snapshot.bytes, ir.members, localCover, centralCover);
    if !ok {
      return false;
    }
    if localRanges == [] {
      EmptyPartsCover(localCover);
      EmptyPartsCover(centralCover);
      return c.localRecords.len == 0 && c.centralDirectory.len == 0;
    }
    ok := AuditPartition(localCover, localRanges);
    if !ok {
      return false;
    }
    ok := AuditPartition(centralCover, centralRanges);
  }

  lemma EmptyPartsCover(outer: CheckedInterval)
    ensures ExactCover(outer, []) <==> outer.start == outer.end
  {
    assert outer.Has(outer.start) ==> Owners([], outer.start) == 0;
  }

  /** The per-member containment checks are implied by an exact cover. */
  lemma PartsStayInside(outer: CheckedInterval, parts: seq<CheckedInterval>)
    ensures ExactCover(outer, parts) ==> forall i :: 0 <= i < |parts| ==> outer.Contains(parts[i])
  {
    if ExactCover(outer, parts) {
      forall i | 0 <= i < |parts| ensures outer.Contains(parts[i]) {
        OwnersPositive(parts, parts[i].start, i);
        OwnersPositive(parts, parts[i].end - 1, i);
        assert outer.Has(parts[i].start) && outer.Has(parts[i].end - 1);
      }
    }
  }

  // ---- Every byte has exactly one label ----

  datatype Label =
    | LocalHeader(member: nat)
    | Payload(member: nat)
    | Descriptor(member: nat)
    | CentralHeader(member: nat)
    | EndOfCentralDirectory
    | ArchiveComment

  /** Position `p` lies in the region that `region` names. */
  predicate Owns(ir: ArchiveIr, region: Label, p: nat)
    requires ir.covering.Some?
  {
    match region
    case LocalHeader(i) => i < |ir.members| && ir.members[i].evidence.Some?
                           && OfRange(ir.members[i].evidence.value.localHeader).Has(p)
    case Payload(i) => i < |ir.members| && ir.members[i].evidence.Some?
                       && OfRange(ir.members[i].evidence.value.payload).Has(p)
    case Descriptor(i) => i < |ir.members| && ir.members[i].evidence.Some?
                          && ir.members[i].evidence.value.descriptor.Some?
                          && OfRange(ir.members[i].evidence.value.descriptor.value).Has(p)
    case CentralHeader(i) => i < |ir.members| && ir.members[i].evidence.Some?
                             && OfRange(ir.members[i].evidence.value.centralHeader).Has(p)
    case EndOfCentralDirectory => OfRange(ir.covering.value.eocd).Has(p)
    case ArchiveComment => OfRange(ir.covering.value.comment).Has(p)
  }

  /** The label a byte gets from the record that owns it. */
  function LabelInRecord(r: SourceRanges, i: nat, p: nat): Label {
    if p < r.localHeader.End() then LocalHeader(i)
    else if p < r.payload.End() then Payload(i)
    else Descriptor(i)
  }

  lemma {:induction false} OwnersTwice(parts: seq<CheckedInterval>, p: nat, i: nat, j: nat)
    requires i < j < |parts| && parts[i].Has(p) && parts[j].Has(p)
    ensures Owners(parts, p) >= 2
  {
    if i == 0 {
      OwnersPositive(parts[1..], p, j - 1);
    } else {
      OwnersTwice(parts[1..], p, i - 1, j - 1);
    }
  }

  lemma SoleOwner(outer: CheckedInterval, parts: seq<CheckedInterval>, p: nat)
    requires ExactCover(outer, parts)
    ensures outer.Has(p) <==> exists i :: 0 <= i < |parts| && parts[i].Has(p)
    ensures forall i, j :: 0 <= i < |parts| && 0 <= j < |parts| && parts[i].Has(p) && parts[j].Has(p) ==> i == j
  {
    if outer.Has(p) {
      var i := OwnersWitness(parts, p);
    }
    forall i | 0 <= i < |parts| && parts[i].Has(p) ensures outer.Has(p) {
      OwnersPositive(parts, p, i);
    }
    forall i, j | 0 <= i < j < |parts| ensures !(parts[i].Has(p) && parts[j].Has(p)) {
      if parts[i].Has(p) && parts[j].Has(p) { OwnersTwice(parts, p, i, j); }
    }
  }

  /** A local label owns `p` exactly when the record does and it is the label of that part of the record. */
  lemma LocalLabels(bytes: seq<byte>, ir: ArchiveIr, i: nat, p: nat)
    requires ir.covering.Some? && i < |ir.members| && MemberAgrees(bytes, ir.members[i])
    ensures var inside := LocalRecord(ir.members[i]).Has(p);
            var part := LabelInRecord(ir.members[i].evidence.value, i, p);
            && (Owns(ir, LocalHeader(i), p) <==> inside && part == LocalHeader(i))
            && (Owns(ir, Payload(i), p) <==> inside && part == Payload(i))
            && (Owns(ir, Descriptor(i), p) <==> inside && part == Descriptor(i))
  {
    var r := ir.members[i].evidence.value;
    assert r.localHeader.offset <= r.localHeader.End() <= r.payload.End() <= r.LocalEnd();
  }

  predicate IsLocal(l: Label) {
    l.LocalHeader? || l.Payload? || l.Descriptor?
  }

  lemma LocalLabelPlace(bytes: seq<byte>, ir: ArchiveIr, l: Label, p: nat)
    requires ir.covering.Some? && IsLocal(l) && Owns(ir, l, p) && MemberAgrees(bytes, ir.members[l.member])
    requires ExactCover(OfRange(ir.covering.value.localRecords), LocalRecords(ir.members))
    ensures OfRange(ir.covering.value.localRecords).Has(p)
    ensures LocalRecords(ir.members)[l.member].Has(p)
    ensures l == LabelInRecord(ir.members[l.member].evidence.value, l.member, p)
  {
    LocalLabels(bytes, ir, l.member, p);
    SoleOwner(OfRange(ir.covering.value.localRecords), LocalRecords(ir.members), p);
    assert LocalRecords(ir.members)[l.member] == LocalRecord(ir.members[l.member]);
  }

  lemma CentralLabelPlace(ir: ArchiveIr, l: Label, p: nat)
    requires ir.covering.Some? && l.CentralHeader? && Owns(ir, l, p)
    requires ExactCover(OfRange(ir.covering.value.centralDirectory), CentralRecords(ir.members))
    ensures OfRange(ir.covering.value.centralDirectory).Has(p)
    ensures CentralRecords(ir.members)[l.member].Has(p)
  {
    SoleOwner(OfRange(ir.covering.value.centralDirectory), CentralRecords(ir.members), p);
    assert CentralRecords(ir.members)[l.member] == CentralRecord(ir.members[l.member]);
  }

  /** The top-level range that holds the regions of a label's kind. */
  function CoverOf(c: Covering, l: Label): CheckedInterval {
    if IsLocal(l) then OfRange(c.localRecords)
    else if l.CentralHeader? then OfRange(c.centralDirectory)
    else if l.EndOfCentralDirectory? then OfRange(c.eocd)
    else OfRange(c.comment)
  }

  lemma CoversAreDisjoint(bytes: seq<byte>, c: Covering, k: Label, l: Label, p: nat)
    requires TopLevelTiles(bytes, c) && CoverOf(c, k).Has(p) && CoverOf(c, l).Has(p)
    ensures IsLocal(k) <==> IsLocal(l)
    ensures !IsLocal(k) && !k.CentralHeader? ==> k == l
    ensures k.CentralHeader? <==> l.CentralHeader?
  {
  }

  lemma LabelInCover(snapshot: Snapshot, ir: ArchiveIr, l: Label, p: nat)
    requires Accepts(snapshot, ir) && Owns(ir, l, p)
    ensures CoverOf(ir.covering.value, l).Has(p)
  {
    if IsLocal(l) {
      LocalLabelPlace(snapshot.bytes, ir, l, p);
    } else if l.CentralHeader? {
      CentralLabelPlace(ir, l, p);
    }
  }

  lemma LocalLabelsAgree(bytes: seq<byte>, ir: ArchiveIr, k: Label, l: Label, p: nat)
    requires ir.covering.Some? && IsLocal(k) && IsLocal(l) && Owns(ir, k, p) && Owns(ir, l, p)
    requires MemberAgrees(bytes, ir.members[k.member]) && MemberAgrees(bytes, ir.members[l.member])
    requires ExactCover(OfRange(ir.covering.value.localRecords), LocalRecords(ir.members))
    ensures k == l
  {
    LocalLabelPlace(bytes, ir, k, p);
    LocalLabelPlace(bytes, ir, l, p);
    SoleOwner(OfRange(ir.covering.value.localRecords), LocalRecords(ir.members), p);
    assert k.member == l.member;
  }

  lemma CentralLabelsAgree(ir: ArchiveIr, k: Label, l: Label, p: nat)
    requires ir.covering.Some? && k.CentralHeader? && l.CentralHeader? && Owns(ir, k, p) && Owns(ir, l, p)
    requires ExactCover(OfRange(ir.covering.value.centralDirectory), CentralRecords(ir.members))
    ensures k == l
  {
    CentralLabelPlace(ir, k, p);
    CentralLabelPlace(ir, l, p);
    SoleOwner(OfRange(ir.covering.value.centralDirectory), CentralRecords(ir.members), p);
    assert k.member == l.member;
  }

  /** Two labels that own the same byte are the same label. */
  lemma LabelsDoNotOverlap(snapshot: Snapshot, ir: ArchiveIr, k: Label, l: Label, p: nat)
    requires Accepts(snapshot, ir) && Owns(ir, k, p) && Owns(ir, l, p)
    ensures k == l
  {
    LabelInCover(snapshot, ir, k, p);
    LabelInCover(snapshot, ir, l, p);
    CoversAreDisjoint(snapshot.bytes, ir.covering.value, k, l, p);
    if IsLocal(k) {
      LocalLabelsAgree(snapshot.bytes, ir, k, l, p);
    } else if k.CentralHeader? {
      CentralLabelsAgree(ir, k, l, p);
    }
  }

  lemma SomeLabel(snapshot: Snapshot, ir: ArchiveIr, p: nat) returns (owner: Label)
    requires Accepts(snapshot, ir) && p < |snapshot.bytes|
    ensures Owns(ir, owner, p)
  {
    var c := ir.covering.value;
    if OfRange(c.localRecords).Has(p) {
      SoleOwner(OfRange(c.localRecords), LocalRecords(ir.members), p);
      var i: nat :| i < |ir.members| && LocalRecords(ir.members)[i].Has(p);
      LocalLabels(snapshot.bytes, ir, i, p);
      owner := LabelInRecord(ir.members[i].evidence.value, i, p);
    } else if OfRange(c.centralDirectory).Has(p) {
      SoleOwner(OfRange(c.centralDirectory), CentralRecords(ir.members), p);
      var i: nat :| i < |ir.members| && CentralRecords(ir.members)[i].Has(p);
      assert CentralRecords(ir.members)[i] == CentralRecord(ir.members[i]);
      assert MemberAgrees(snapshot.bytes, ir.members[i]);
      owner := CentralHeader(i);
    } else {
      owner := if OfRange(c.eocd).Has(p) then EndOfCentralDirectory else ArchiveComment;
    }
  }

  /** After acceptance every byte of the source has one label and no other, in whatever order members are listed. */
  lemma EveryByteHasOneLabel(snapshot: Snapshot, ir: ArchiveIr, p: nat) returns (owner: Label)
    requires Accepts(snapshot, ir) && p < |snapshot.bytes|
    ensures Owns(ir, owner, p)
    ensures forall l: Label :: Owns(ir, l, p) ==> l == owner
  {
    owner := SomeLabel(snapshot, ir, p);
    forall l: Label | Owns(ir, l, p) ensures l == owner {
      LabelsDoNotOverlap(snapshot, ir, l, owner, p);
    }
  }

  // ---- The verdict does not depend on member order ----

  lemma {:induction false} MappedMultiset(a: seq<Member>, b: seq<Member>)
    requires multiset(a) == multiset(b)
    ensures multiset(LocalRecords(a)) == multiset(LocalRecords(b))
    ensures multiset(CentralRecords(a)) == multiset(CentralRecords(b))
    decreases |a|
  {
    assert |multiset(a)| == |a| && |multiset(b)| == |b|;
    if a != [] {
      assert a[0] in multiset(b);
      var i :| 0 <= i < |b| && b[i] == a[0];
      RemoveMatching(a, b, i);
      var less := b[..i] + b[i + 1..];
      MappedMultiset(a[1..], less);
      assert LocalRecords(a) == [LocalRecord(a[0])] + LocalRecords(a[1..]);
      assert CentralRecords(a) == [CentralRecord(a[0])] + CentralRecords(a[1..]);
      assert LocalRecords(b) == LocalRecords(b[..i]) + ([LocalRecord(b[i])] + LocalRecords(b[i + 1..]));
      assert CentralRecords(b) == CentralRecords(b[..i]) + ([CentralRecord(b[i])] + CentralRecords(b[i + 1..]));
      assert LocalRecords(less) == LocalRecords(b[..i]) + LocalRecords(b[i + 1..]);
      assert CentralRecords(less) == CentralRecords(b[..i]) + CentralRecords(b[i + 1..]);
    }
  }

  lemma MemberOrderIsIrrelevant(snapshot: Snapshot, ir: ArchiveIr, members: seq<Member>)
    requires multiset(members) == multiset(ir.members)
    ensures Accepts(snapshot, ir) <==> Accepts(snapshot, ir.(members := members))
  {
    MappedMultiset(ir.members, members);
    assert |multiset(members)| == |members| && |multiset(ir.members)| == |ir.members|;
    forall i | 0 <= i < |members| ensures members[i] in ir.members { assert members[i] in multiset(ir.members); }
    forall i | 0 <= i < |ir.members| ensures ir.members[i] in members { assert ir.members[i] in multiset(members); }
    if ir.covering.Some? {
      var c := ir.covering.value;
      ExactCoverPermute(OfRange(c.localRecords), LocalRecords(ir.members), LocalRecords(members));
      ExactCoverPermute(OfRange(c.centralDirectory), CentralRecords(ir.members), CentralRecords(members));
    }
  }
}
