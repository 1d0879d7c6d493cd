/** What an accepted 7z covering leaves open, and what it fixes. */
module SevenZipReadings {
  import opened Prelude
  import opened Intervals
  import opened SevenZip

  // ---- Cuts inside a folder are free ----

  /** The folders with other substreams. */
  function RecutFolders(folders: seq<Folder>, cuts: seq<seq<SubStream>>): (r: seq<Folder>)
    requires |cuts| == |folders|
    ensures |r| == |folders|
  {
    seq(|folders|, i requires 0 <= i < |folders| => folders[i].(substreams := cuts[i]))
  }

  /** The members with other claims: each nonempty payload becomes the next substream. */
  function Reclaim(members: seq<Member>, subs: seq<SubStream>): seq<Member> {
    if members == [] then []
    else if members[0].evidence.None? || members[0].evidence.value.payload.len == 0 || subs == [] then
      [members[0]] + Reclaim(members[1..], subs)
    else
      [Member(Some(subs[0]), subs[0].payload.len)] + Reclaim(members[1..], subs[1..])
  }

  /** The archive with other substreams in its folders, claimed by the same members. */
  function Recut(ir: ArchiveIr, cuts: seq<seq<SubStream>>): ArchiveIr
    requires ir.sevenz.Some? && |cuts| == |ir.sevenz.value.folders|
  {
    var folders := RecutFolders(ir.sevenz.value.folders, cuts);
    ir.(sevenz := Some(ir.sevenz.value.(folders := folders)), members := Reclaim(ir.members, AllSubStreams(folders)))
  }

  predicate NoneEmpty(subs: seq<SubStream>) {
    forall i :: 0 <= i < |subs| ==> subs[i].payload.len != 0
  }

  predicate MembersAgree(members: seq<Member>, emptyOffset: nat) {
    forall i :: 0 <= i < |members| ==> MemberAgrees(members[i], emptyOffset)
  }

  lemma {:induction false} ReclaimedMembers(members: seq<Member>, subs: seq<SubStream>, emptyOffset: nat)
    requires MembersAgree(members, emptyOffset) && NoneEmpty(subs) && |subs| == |Claims(members)|
    ensures MembersAgree(Reclaim(members, subs), emptyOffset) && Claims(Reclaim(members, subs)) == subs
  {
    if members != [] {
      assert MemberAgrees(members[0], emptyOffset);
      var nonempty := members[0].evidence.value.payload.len != 0;
      ReclaimedMembers(members[1..], if nonempty then subs[1..] else subs, emptyOffset);
      var r := Reclaim(members, subs);
      assert r[1..] == Reclaim(members[1..], if nonempty then subs[1..] else subs);
      if nonempty { assert subs == [subs[0]] + subs[1..]; }
    }
  }

  lemma {:induction false} RecutTiles(from: nat, folders: seq<Folder>, cuts: seq<seq<SubStream>>, to: nat)
    requires |cuts| == |folders|
    ensures FoldersTile(from, RecutFolders(folders, cuts), to) <==> FoldersTile(from, folders, to)
    decreases folders
  {
    if folders != [] {
      assert RecutFolders(folders, cuts)[1..] == RecutFolders(folders[1..], cuts[1..]);
      if folders[0].packStream.EndFits() {
        RecutTiles(folders[0].packStream.End(), folders[1..], cuts[1..], to);
      }
    }
  }

  lemma {:induction false} TileHasNoEmpty(from: nat, subs: seq<SubStream>, to: nat)
    requires SubStreamsTile(from, subs, to)
    ensures NoneEmpty(subs)
    decreases subs
  {
    if subs != [] {
      TileHasNoEmpty(subs[0].payload.End(), subs[1..], to);
      assert subs == [subs[0]] + subs[1..];
    }
  }

  /** With as many pieces as before, an accepted archive may be cut anew in every way that tiles each folder. */
  lemma CutsAreFree(crc32: Checksum, bytes: seq<byte>, ir: ArchiveIr, cuts: seq<seq<SubStream>>)
    requires Accepts(crc32, bytes, ir) && |cuts| == |ir.sevenz.value.folders|
    requires |AllSubStreams(RecutFolders(ir.sevenz.value.folders, cuts))| == |Claims(ir.members)|
    ensures var folders := ir.sevenz.value.folders;
            Accepts(crc32, bytes, Recut(ir, cuts)) <==>
            forall i :: 0 <= i < |folders| ==>
                          SubStreamsTile(folders[i].packStream.offset, cuts[i], folders[i].packStream.End())
  {
    hide FoldersTile, SubStreamsTile, AllSubStreams, Claims, CrcMatches, Reclaim, MemberAgrees, LeU32, LeU64;
    var e := ir.sevenz.value;
    var folders := RecutFolders(e.folders, cuts);
    RecutTiles(32, e.folders, cuts, e.nextHeader.offset);
    forall i | 0 <= i < |folders|
      ensures FolderAgrees(crc32, bytes, folders[i]) <==>
              SubStreamsTile(e.folders[i].packStream.offset, cuts[i], e.folders[i].packStream.End())
    {
      assert FolderAgrees(crc32, bytes, e.folders[i]);
    }
    if forall i :: 0 <= i < |folders| ==> FolderAgrees(crc32, bytes, folders[i]) {
      FlattenedSubStreamsTile(crc32, bytes, 32, folders, e.nextHeader.offset);
      TileHasNoEmpty(32, AllSubStreams(folders), e.nextHeader.offset);
      assert MembersAgree(ir.members, e.nextHeader.offset);
      ReclaimedMembers(ir.members, AllSubStreams(folders), e.nextHeader.offset);
    }
  }

  // ---- One boundary, moved by one byte ----

  /** The boundary between substream `k` and the next one, one byte later. */
  function BoundaryMoved(subs: seq<SubStream>, k: nat): seq<SubStream>
    requires k + 1 < |subs| && subs[k].payload.len < U64_MAX
    requires 0 < subs[k + 1].payload.len && subs[k + 1].payload.offset < U64_MAX
  {
    var left, right := subs[k].payload, subs[k + 1].payload;
    subs[k := subs[k].(payload := ByteRange(left.offset, left.len + 1))]
        [k + 1 := subs[k + 1].(payload := ByteRange(right.offset + 1, right.len - 1))]
  }

  /** The boundary can be moved, and the pieces still tile the same bytes. */
  lemma {:induction false} MovedTiles(from: nat, subs: seq<SubStream>, k: nat, to: nat)
    requires SubStreamsTile(from, subs, to) && k + 1 < |subs| && subs[k + 1].payload.len >= 2
    ensures subs[k].payload.len < U64_MAX && subs[k + 1].payload.offset < U64_MAX
    ensures SubStreamsTile(from, BoundaryMoved(subs, k), to)
    decreases subs
  {
    var end := subs[0].payload.End();
    if k == 0 {
      assert subs[1..][0] == subs[1];
      var moved := BoundaryMoved(subs, 0);
      assert moved[1..][1..] == subs[1..][1..];
      assert moved[1..][0] == moved[1];
    } else {
      assert subs[1..][k - 1] == subs[k] && subs[1..][k] == subs[k + 1];
      MovedTiles(end, subs[1..], k - 1, to);
      assert BoundaryMoved(subs, k)[1..] == BoundaryMoved(subs[1..], k - 1);
    }
  }

  function Cuts(folders: seq<Folder>): (cuts: seq<seq<SubStream>>)
    ensures |cuts| == |folders|
  {
    seq(|folders|, i requires 0 <= i < |folders| => folders[i].substreams)
  }

  lemma {:induction false} AsManyPieces(folders: seq<Folder>, cuts: seq<seq<SubStream>>)
    requires |cuts| == |folders| && forall i :: 0 <= i < |folders| ==> |cuts[i]| == |folders[i].substreams|
    ensures |AllSubStreams(RecutFolders(folders, cuts))| == |AllSubStreams(folders)|
  {
    if folders != [] {
      assert RecutFolders(folders, cuts)[1..] == RecutFolders(folders[1..], cuts[1..]);
      AsManyPieces(folders[1..], cuts[1..]);
    }
  }

  /** Acceptance does not fix where one payload stops and the next begins. */
  lemma PayloadBoundaryIsFree(crc32: Checksum, bytes: seq<byte>, ir: ArchiveIr, n: nat, k: nat)
    returns (other: ArchiveIr)
    requires Accepts(crc32, bytes, ir) && n < |ir.sevenz.value.folders|
    requires k + 1 < |ir.sevenz.value.folders[n].substreams|
    requires ir.sevenz.value.folders[n].substreams[k + 1].payload.len >= 2
    ensures Accepts(crc32, bytes, other) && other.sevenz.Some? && other.sevenz != ir.sevenz
  {
    hide SignatureAgrees, NextHeaderAgrees, FoldersTile, SubStreamsTile, AllSubStreams, Claims, CrcMatches, Reclaim;
    hide MemberAgrees;
    var folders := ir.sevenz.value.folders;
    var f := folders[n];
    assert FolderAgrees(crc32, bytes, f);
    MovedTiles(f.packStream.offset, f.substreams, k, f.packStream.End());
    var cuts := Cuts(folders)[n := BoundaryMoved(f.substreams, k)];
    AsManyPieces(folders, cuts);
    forall i | 0 <= i < |folders|
      ensures SubStreamsTile(folders[i].packStream.offset, cuts[i], folders[i].packStream.End())
    {
      assert FolderAgrees(crc32, bytes, folders[i]);
    }
    CutsAreFree(crc32, bytes, ir, cuts);
    other := Recut(ir, cuts);
    assert other.sevenz.value.folders[n].substreams[k + 1] != f.substreams[k + 1];
  }

  // ---- What is fixed ----

  /** Everything but folders and members is read from the signature header. */
  lemma EnvelopeIsUnique(crc32: Checksum, bytes: seq<byte>, a: ArchiveIr, b: ArchiveIr)
    requires Accepts(crc32, bytes, a) && Accepts(crc32, bytes, b)
    ensures b.sevenz.value == a.sevenz.value.(folders := b.sevenz.value.folders)
  {
    hide LeU32, LeU64, FoldersTile, FolderAgrees, MemberAgrees, Claims, AllSubStreams;
  }

  function Spans(subs: seq<SubStream>): (spans: seq<CheckedInterval>)
    ensures |spans| == |subs|
  {
    seq(|subs|, i requires 0 <= i < |subs| => OfRange(subs[i].payload))
  }

  lemma {:induction false} TileIsChain(from: nat, subs: seq<SubStream>, to: nat)
    requires SubStreamsTile(from, subs, to)
    ensures Chain(from, Spans(subs), to)
    decreases subs
  {
    if subs != [] {
      TileIsChain(subs[0].payload.End(), subs[1..], to);
      assert Spans(subs)[1..] == Spans(subs[1..]);
    }
  }

  /** Two accepted archives claim the same payload ranges exactly when these start at the same positions. */
  lemma ClaimsAreTheirStarts(crc32: Checksum, bytes: seq<byte>, a: ArchiveIr, b: ArchiveIr)
    requires Accepts(crc32, bytes, a) && Accepts(crc32, bytes, b)
    ensures Spans(Claims(a.members)) == Spans(Claims(b.members))
            <==> SameStarts(Spans(Claims(a.members)), Spans(Claims(b.members)))
  {
    MembersTilePackRegion(crc32, bytes, a);
    MembersTilePackRegion(crc32, bytes, b);
    EnvelopeIsUnique(crc32, bytes, a, b);
    hide Accepts, Spans, Claims, SubStreamsTile, SameStarts;
    var end := |bytes| - a.sevenz.value.nextHeader.len;
    TileIsChain(32, Claims(a.members), end);
    TileIsChain(32, Claims(b.members), end);
    if SameStarts(Spans(Claims(a.members)), Spans(Claims(b.members))) {
      ChainIsItsStarts(32, Spans(Claims(a.members)), Spans(Claims(b.members)), end);
    } else if Spans(Claims(a.members)) == Spans(Claims(b.members)) {
      SelfStarts(Spans(Claims(a.members)));
    }
  }

  lemma SelfStarts(parts: seq<CheckedInterval>)
    ensures SameStarts(parts, parts)
  {
  }
}
