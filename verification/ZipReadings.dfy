/** What an accepted ZIP32 covering leaves open, and what it fixes. */
module ZipReadings {
  import opened Prelude
  import opened Intervals
  import opened ZipCovering

  // ---- Boundaries inside a record are free ----

  /** Header, payload and descriptor of one record abut, the header being long enough. */
  predicate WellCut(m: Member) {
    && m.evidence.Some?
    && var r := m.evidence.value;
       && r.localHeader.EndFits() && r.payload.EndFits() && r.localHeader.len >= 30
       && r.localHeader.End() == r.payload.offset
       && (r.descriptor.Some? ==> r.descriptor.value.EndFits() && r.payload.End() == r.descriptor.value.offset)
  }

  /** The members have the same local and central records, whatever is inside the local ones. */
  predicate SameRecords(a: ArchiveIr, b: ArchiveIr) {
    && a.sourceDigest == b.sourceDigest && a.covering == b.covering && |a.members| == |b.members|
    && forall i :: 0 <= i < |a.members| ==>
         && LocalRecord(a.members[i]) == LocalRecord(b.members[i])
         && b.members[i].evidence.Some? && a.members[i].evidence.Some?
         && b.members[i].evidence.value.centralHeader == a.members[i].evidence.value.centralHeader
  }

  lemma MemberRecut(bytes: seq<byte>, m: Member, n: Member)
    requires MemberAgrees(bytes, m) && n.evidence.Some? && LocalRecord(m) == LocalRecord(n)
    requires !LocalRecord(m).IsEmpty()
    requires n.evidence.value.centralHeader == m.evidence.value.centralHeader
    ensures MemberAgrees(bytes, n) <==> WellCut(n)
  {
    hide HasSignature;
  }

  /** Given its records, an archive is accepted exactly when each is cut into parts behind its thirtieth byte. */
  lemma CutsAreFree(snapshot: Snapshot, a: ArchiveIr, b: ArchiveIr)
    requires Accepts(snapshot, a) && SameRecords(a, b)
    ensures Accepts(snapshot, b) <==> forall i :: 0 <= i < |b.members| ==> WellCut(b.members[i])
  {
    assert LocalRecords(a.members) == LocalRecords(b.members);
    assert CentralRecords(a.members) == CentralRecords(b.members);
    forall i | 0 <= i < |a.members| ensures MemberAgrees(snapshot.bytes, b.members[i]) <==> WellCut(b.members[i]) {
      assert LocalRecords(a.members)[i] == LocalRecord(a.members[i]);
      MemberRecut(snapshot.bytes, a.members[i], b.members[i]);
    }
    hide MemberAgrees, WellCut, ExactCover, TopLevelTiles, EocdAgrees, LocalRecords, CentralRecords;
  }

  /** The boundary between a local header and its payload, one byte later. */
  function BoundaryMoved(r: SourceRanges): SourceRanges
    requires r.localHeader.len < U64_MAX && 0 < r.payload.len && r.payload.offset < U64_MAX
  {
    r.(localHeader := ByteRange(r.localHeader.offset, r.localHeader.len + 1),
       payload := ByteRange(r.payload.offset + 1, r.payload.len - 1))
  }

  /** Acceptance does not fix where a payload starts: one byte later is accepted too. */
  lemma PayloadStartIsFree(snapshot: Snapshot, ir: ArchiveIr, i: nat) returns (other: ArchiveIr)
    requires Accepts(snapshot, ir) && i < |ir.members| && ir.members[i].evidence.value.payload.len > 0
    ensures Accepts(snapshot, other) && other.covering == ir.covering && |other.members| == |ir.members|
    ensures other.members[i].evidence.value.payload.offset == ir.members[i].evidence.value.payload.offset + 1
  {
    assert MemberAgrees(snapshot.bytes, ir.members[i]);
    var moved := Member(Some(BoundaryMoved(ir.members[i].evidence.value)));
    other := ir.(members := ir.members[i := moved]);
    forall k | 0 <= k < |ir.members| ensures WellCut(other.members[k]) {
      assert MemberAgrees(snapshot.bytes, ir.members[k]);
    }
    CutsAreFree(snapshot, ir, other);
  }

  // ---- What is fixed ----

  /** One end-of-central-directory record, one covering and one member count. */
  lemma CoveringIsItsEocd(snapshot: Snapshot, a: ArchiveIr, b: ArchiveIr)
    requires Accepts(snapshot, a) && Accepts(snapshot, b)
    ensures a.covering == b.covering <==> a.covering.value.eocd.offset == b.covering.value.eocd.offset
    ensures a.covering == b.covering ==> |a.members| == |b.members|
  {
    hide LeU16, LeU32, ExactCover, MemberAgrees;
    var c, d := a.covering.value, b.covering.value;
    if c.eocd.offset == d.eocd.offset {
      assert c.eocd == d.eocd;
      assert Slice(snapshot.bytes, c.eocd) == Slice(snapshot.bytes, d.eocd);
    }
  }

  /** In one covering, two accepted archives have the same records exactly when these start at the same positions. */
  lemma RecordsAreTheirStarts(snapshot: Snapshot, a: ArchiveIr, b: ArchiveIr)
    requires Accepts(snapshot, a) && Accepts(snapshot, b) && a.covering == b.covering
    ensures multiset(LocalRecords(a.members)) == multiset(LocalRecords(b.members))
            <==> SameStarts(LocalRecords(a.members), LocalRecords(b.members))
    ensures multiset(CentralRecords(a.members)) == multiset(CentralRecords(b.members))
            <==> SameStarts(CentralRecords(a.members), CentralRecords(b.members))
  {
    hide ExactCover, MemberAgrees, EocdAgrees, TopLevelTiles, LocalRecords, CentralRecords, SameStarts;
    var c := a.covering.value;
    CoverIsItsStarts(OfRange(c.localRecords), LocalRecords(a.members), LocalRecords(b.members));
    CoverIsItsStarts(OfRange(c.centralDirectory), CentralRecords(a.members), CentralRecords(b.members));
  }

  // ---- One snapshot, two coverings ----

  function Zeroes(n: nat): seq<byte> {
    seq(n, _ => 0)
  }

  const FIRST_END: seq<byte> :=
    [0x50, 0x4b, 0x05, 0x06, 0, 0, 0, 0, 1, 0, 1, 0, 46, 0, 0, 0, 30, 0, 0, 0, 22, 0]
  const SECOND_END: seq<byte> :=
    [0x50, 0x4b, 0x05, 0x06, 0, 0, 0, 0, 1, 0, 1, 0, 68, 0, 0, 0, 30, 0, 0, 0, 0, 0]

  /** One empty member, and an end record whose comment is a second end record. */
  function Nested(): seq<byte> {
    (LFH_SIG + Zeroes(26)) + (CDH_SIG + Zeroes(42)) + FIRST_END + SECOND_END
  }

  /** The archive whose central directory ends at `end`, with one empty member. */
  function Reading(digest: SourceDigest, end: nat): ArchiveIr
    requires 30 <= end <= 98
  {
    var central := ByteRange(30, end - 30);
    ArchiveIr(digest,
              Some(Covering(ByteRange(0, 30), central, ByteRange(end, 22), ByteRange(end + 22, 98 - end))),
              [Member(Some(SourceRanges(ByteRange(0, 30), ByteRange(30, 0), None, central)))])
  }

  lemma SinglePart(outer: CheckedInterval)
    ensures ExactCover(outer, [outer]) <==> !outer.IsEmpty()
  {
    assert [outer][0] == outer;
    forall p: nat ensures Owners([outer], p) == if outer.Has(p) then 1 else 0 {
      assert [outer][1..] == [];
      assert Owners([outer], p) == (if outer.Has(p) then 1 else 0) + Owners([], p);
    }
  }

  lemma NestedParts()
    ensures |Nested()| == 120
    ensures HasSignature(Nested(), 0, LFH_SIG) && HasSignature(Nested(), 30, CDH_SIG)
    ensures Nested()[76..98] == FIRST_END && Nested()[98..120] == SECOND_END
  {
  }

  lemma EndRecordsAgree(c: Covering)
    requires c.centralDirectory.offset == 30
    ensures c.centralDirectory.len == 46 && c.comment.len == 22 ==> EocdAgrees(FIRST_END, c, 1)
    ensures c.centralDirectory.len == 68 && c.comment.len == 0 ==> EocdAgrees(SECOND_END, c, 1)
  {
  }

  lemma NestedRecords(digest: SourceDigest, end: nat)
    requires end == 76 || end == 98
    ensures var ir := Reading(digest, end);
            && MemberAgrees(Nested(), ir.members[0])
            && LocalRecords(ir.members) == [OfRange(ir.covering.value.localRecords)]
            && CentralRecords(ir.members) == [OfRange(ir.covering.value.centralDirectory)]
  {
    NestedParts();
    hide Nested;
  }

  lemma NestedIsRead(digest: SourceDigest, end: nat)
    requires end == 76 || end == 98
    ensures Accepts(Snapshot(Nested(), digest), Reading(digest, end))
  {
    var c := Reading(digest, end).covering.value;
    NestedParts();
    NestedRecords(digest, end);
    EndRecordsAgree(c);
    SinglePart(OfRange(c.localRecords));
    SinglePart(OfRange(c.centralDirectory));
    hide Nested, MemberAgrees, ExactCover, EocdAgrees, LocalRecords, CentralRecords;
  }

  /** Acceptance does not fix the covering either. */
  lemma CoveringIsNotUnique(digest: SourceDigest) returns (snapshot: Snapshot, a: ArchiveIr, b: ArchiveIr)
    ensures Accepts(snapshot, a) && Accepts(snapshot, b) && a.covering != b.covering
  {
    snapshot, a, b := Snapshot(Nested(), digest), Reading(digest, 76), Reading(digest, 98);
    NestedIsRead(digest, 76);
    NestedIsRead(digest, 98);
  }
}
