/** The restricted Copy 7z covering audit: pack streams, substreams and members carry the same bytes. */
module SevenZip {
  import opened Prelude

  const SIGNATURE: seq<byte> := [0x37, 0x7a, 0xbc, 0xaf, 0x27, 0x1c]
  const SIGNATURE_HEADER_LEN := 32

  /** CRC-32 is a library routine; every statement below holds for any such function. */
  type Checksum = seq<byte> -> u32

  datatype SubStream = SubStream(payload: ByteRange, declaredCrc: Option<u32>)

  datatype Folder = Folder(
    packStream: ByteRange,
    packCrc: Option<u32>,
    unpackSize: u64,
    folderCrc: Option<u32>,
    substreams: seq<SubStream>)

  datatype ArchiveEvidence = ArchiveEvidence(
    versionMinor: byte,
    packRegion: ByteRange,
    nextHeader: ByteRange,
    nextHeaderCrc: u32,
    folders: seq<Folder>)

  /** `evidence` is `None` for a member that carries the evidence of another format. */
  datatype Member = Member(evidence: Option<SubStream>, declaredUncompSize: u64)

  datatype ArchiveIr = ArchiveIr(format: ArchiveFormat, sevenz: Option<ArchiveEvidence>, members: seq<Member>)

  // ---- What acceptance means ----

  /** Signature, version and start-header CRC of the 32-byte signature header. */
  predicate SignatureAgrees(crc32: Checksum, bytes: seq<byte>, e: ArchiveEvidence) {
    && SIGNATURE_HEADER_LEN <= |bytes|
    && bytes[..6] == SIGNATURE
    && bytes[6] == 0
    && bytes[7] == e.versionMinor
    && crc32(bytes[12..32]) == LeU32(bytes, 8)
  }

  /** The next header ends the source, has the declared CRC and is a raw kHeader. */
  predicate NextHeaderAgrees(crc32: Checksum, bytes: seq<byte>, e: ArchiveEvidence)
    requires SIGNATURE_HEADER_LEN <= |bytes|
  {
    && e.nextHeader.offset == 32 + LeU64(bytes, 12)
    && e.nextHeader.len == LeU64(bytes, 20)
    && e.nextHeaderCrc == LeU32(bytes, 28)
    && e.nextHeader.EndFits()
    && e.nextHeader.End() == |bytes|
    && crc32(Slice(bytes, e.nextHeader)) == e.nextHeaderCrc
    && e.nextHeader.len > 0
    && bytes[e.nextHeader.offset] == 0x01
  }

  /** Nonempty substreams, each starting where the previous one ended. */
  predicate SubStreamsTile(from: nat, subs: seq<SubStream>, to: nat)
    decreases subs
  {
    if subs == [] then from == to
    else
      && subs[0].payload.offset == from && subs[0].payload.len != 0 && subs[0].payload.EndFits()
      && SubStreamsTile(subs[0].payload.End(), subs[1..], to)
  }

  predicate FoldersTile(from: nat, folders: seq<Folder>, to: nat)
    decreases folders
  {
    if folders == [] then from == to
    else
      && folders[0].packStream.offset == from && folders[0].packStream.EndFits()
      && FoldersTile(folders[0].packStream.End(), folders[1..], to)
  }

  predicate CrcMatches(crc32: Checksum, declared: Option<u32>, bytes: seq<byte>) {
    declared.Some? ==> crc32(bytes) == declared.value
  }

  predicate FolderAgrees(crc32: Checksum, bytes: seq<byte>, f: Folder) {
    && f.packStream.EndFits()
    && f.unpackSize == f.packStream.len
    && SubStreamsTile(f.packStream.offset, f.substreams, f.packStream.End())
    && Holds(bytes, f.packStream)
    && CrcMatches(crc32, f.packCrc, Slice(bytes, f.packStream))
    && CrcMatches(crc32, f.folderCrc, Slice(bytes, f.packStream))
  }

  function AllSubStreams(folders: seq<Folder>): seq<SubStream> {
    if folders == [] then [] else folders[0].substreams + AllSubStreams(folders[1..])
  }

  predicate MemberAgrees(m: Member, emptyOffset: nat) {
    && m.evidence.Some?
    && if m.evidence.value.payload.len == 0 then
         m.evidence.value.payload.offset == emptyOffset && m.evidence.value.declaredCrc.None?
       else
         m.declaredUncompSize == m.evidence.value.payload.len
  }

  /** The nonempty payloads the members claim, in member order. */
  function Claims(members: seq<Member>): seq<SubStream> {
    if members == [] then []
    else (if members[0].evidence.Some? && members[0].evidence.value.payload.len != 0
          then [members[0].evidence.value] else []) + Claims(members[1..])
  }

  predicate Accepts(crc32: Checksum, bytes: seq<byte>, ir: ArchiveIr) {
    && ir.format == SevenZCopy
    && ir.sevenz.Some?
    && var e := ir.sevenz.value;
       && SignatureAgrees(crc32, bytes, e)
       && NextHeaderAgrees(crc32, bytes, e)
       && e.packRegion.EndFits() && e.packRegion.offset == 32 && e.packRegion.End() == e.nextHeader.offset
       && FoldersTile(32, e.folders, e.nextHeader.offset)
       && (forall i :: 0 <= i < |e.folders| ==> FolderAgrees(crc32, bytes, e.folders[i]))
       && (forall i :: 0 <= i < |ir.members| ==> MemberAgrees(ir.members[i], e.nextHeader.offset))
       && Claims(ir.members) == AllSubStreams(e.folders)
  }

  // ---- The audit ----

  method AuditHeaders(crc32: Checksum, bytes: seq<byte>, e: ArchiveEvidence) returns (ok: bool)
    ensures ok <==> SignatureAgrees(crc32, bytes, e) && NextHeaderAgrees(crc32, bytes, e)
  {
    if |bytes| < 32 || bytes[..6] != SIGNATURE || bytes[6] != 0 || bytes[7] != e.versionMinor {
      return false;
    }
    var declaredStartCrc := LeU32(bytes, 8);
    if crc32(bytes[12..32]) != declaredStartCrc {
      return false;
    }
    var nextOffset, nextSize, nextCrc := LeU64(bytes, 12), LeU64(bytes, 20), LeU32(bytes, 28);
    if 32 + nextOffset > U64_MAX {
      return false;
    }
    if e.nextHeader != ByteRange(32 + nextOffset, nextSize) || e.nextHeaderCrc != nextCrc {
      return false;
    }
    if !e.nextHeader.EndFits() || e.nextHeader.End() != |bytes| {
      return false;
    }
    var headerBytes := Slice(bytes, e.nextHeader);
    if crc32(headerBytes) != nextCrc {
      return false;
    }
    return |headerBytes| > 0 && headerBytes[0] == 0x01;
  }

  /** One pass of the folder loop; `cursor` is where its pack stream has to begin. */
  method AuditFolder(crc32: Checksum, bytes: seq<byte>, f: Folder, cursor: nat) returns (ok: bool)
    ensures ok <==> f.packStream.offset == cursor && FolderAgrees(crc32, bytes, f)
  {
    if f.packStream.offset != cursor || f.unpackSize != f.packStream.len || !f.packStream.EndFits() {
      return false;
    }
    var subCursor: nat := f.packStream.offset;
    for i := 0 to |f.substreams|
      invariant SubStreamsTile(f.packStream.offset, f.substreams, f.packStream.End())
           <==> SubStreamsTile(subCursor, f.substreams[i..], f.packStream.End())
    {
      var payload := f.substreams[i].payload;
      if payload.offset != subCursor || payload.len == 0 || !payload.EndFits() {
        return false;
      }
      assert f.substreams[i..][1..] == f.substreams[i + 1..];
      subCursor := payload.End();
    }
    if subCursor != f.packStream.End() || f.packStream.End() > |bytes| {
      return false;
    }
    var folderBytes := Slice(bytes, f.packStream);
    if f.packCrc.Some? && crc32(folderBytes) != f.packCrc.value {
      return false;
    }
    return f.folderCrc.None? || crc32(folderBytes) == f.folderCrc.value;
  }

  method AuditFolders(crc32: Checksum, bytes: seq<byte>, folders: seq<Folder>, end: nat) returns (ok: bool)
    ensures ok <==> && FoldersTile(32, folders, end)
                    && forall i :: 0 <= i < |folders| ==> FolderAgrees(crc32, bytes, folders[i])
  {
    var cursor: nat := 32;
    for i := 0 to |folders|
      invariant FoldersTile(32, folders, end) <==> FoldersTile(cursor, folders[i..], end)
      invariant forall j :: 0 <= j < i ==> FolderAgrees(crc32, bytes, folders[j])
    {
      var agrees := AuditFolder(crc32, bytes, folders[i], cursor);
      if !agrees {
        return false;
      }
      assert folders[i..][1..] == folders[i + 1..];
      cursor := folders[i].packStream.End();
    }
    return cursor == end;
  }

  lemma {:induction false} ClaimsSplit(members: seq<Member>, i: nat)
    requires i <= |members|
    ensures Claims(members) == Claims(members[..i]) + Claims(members[i..])
  {
    if i == 0 {
      assert members[..0] == [] && members[0..] == members;
    } else {
      ClaimsSplit(members[1..], i - 1);
      assert members[..i][1..] == members[1..][..i - 1];
      assert members[i..] == members[1..][i - 1..];
    }
  }

  /** Members consume the recorded substreams one to one and in order. */
  method AuditMembers(members: seq<Member>, recorded: seq<SubStream>, emptyOffset: nat) returns (ok: bool)
    ensures ok <==> && (forall i :: 0 <= i < |members| ==> MemberAgrees(members[i], emptyOffset))
                    && Claims(members) == recorded
  {
    var used: nat := 0;
    for i := 0 to |members|
      invariant used <= |recorded|
      invariant Claims(members[..i]) == recorded[..used]
      invariant forall j :: 0 <= j < i ==> MemberAgrees(members[j], emptyOffset)
    {
      ClaimsSplit(members, i);
      ClaimsSplit(members[..i + 1], i);
      assert members[..i + 1][..i] == members[..i] && members[..i + 1][i..] == [members[i]];
      assert Claims(members[i..])
          == Claims([members[i]]) + Claims(members[i + 1..]) by { ClaimsSplit(members[i..], 1);
                                                                   assert members[i..][..1] == [members[i]];
                                                                   assert members[i..][1..] == members[i + 1..]; }
      if members[i].evidence.None? {
        return false;
      }
      var evidence := members[i].evidence.value;
      if evidence.payload.len == 0 {
        if evidence.payload.offset != emptyOffset || evidence.declaredCrc.Some? {
          return false;
        }
        assert Claims([members[i]]) == [];
      } else {
        assert Claims([members[i]]) == [evidence];
        assert Claims(members) == recorded ==> used < |recorded| && recorded[used] == evidence;
        if used == |recorded| {
          return false;
        }
        if recorded[used] != evidence || members[i].declaredUncompSize != evidence.payload.len {
          return false;
        }
        used := used + 1;
      }
    }
    assert members[..|members|] == members;
    return used == |recorded|;
  }

  /** `audit_sevenz_covering`. */
  method AuditCovering(crc32: Checksum, bytes: seq<byte>, ir: ArchiveIr) returns (ok: bool)
    ensures ok <==> Accepts(crc32, bytes, ir)
  {
    if ir.format != SevenZCopy || ir.sevenz.None? {
      return false;
    }
    var e := ir.sevenz.value;
    ok := AuditHeaders(crc32, bytes, e);
    if !ok {
      return;
    }
    if e.packRegion.offset != 32 || !e.packRegion.EndFits() || e.packRegion.End() != e.nextHeader.offset {
      return false;
    }
    ok := AuditFolders(crc32, bytes, e.folders, e.nextHeader.offset);
    if !ok {
      return;
    }
    ok := AuditMembers(ir.members, AllSubStreams(e.folders), e.nextHeader.offset);
  }

  // ---- Byte conservation ----

  function SubStreamBytes(subs: seq<SubStream>): nat {
    if subs == [] then 0 else subs[0].payload.len + SubStreamBytes(subs[1..])
  }

  function PayloadBytes(members: seq<Member>): nat {
    if members == [] then 0
    else (if members[0].evidence.Some? then members[0].evidence.value.payload.len else 0) + PayloadBytes(members[1..])
  }

  lemma {:induction false} TileConcat(from: nat, a: seq<SubStream>, mid: nat, b: seq<SubStream>, to: nat)
    requires SubStreamsTile(from, a, mid) && SubStreamsTile(mid, b, to)
    ensures SubStreamsTile(from, a + b, to)
    decreases a
  {
    if a == [] {
      assert a + b == b;
    } else {
      TileConcat(a[0].payload.End(), a[1..], mid, b, to);
      assert (a + b)[1..] == a[1..] + b;
    }
  }

  /** The substreams of all folders, flattened, tile the pack region without knowing where folders end. */
  lemma {:induction false} FlattenedSubStreamsTile(
    crc32: Checksum, bytes: seq<byte>, from: nat, folders: seq<Folder>, to: nat)
    requires FoldersTile(from, folders, to)
    requires forall i :: 0 <= i < |folders| ==> FolderAgrees(crc32, bytes, folders[i])
    ensures SubStreamsTile(from, AllSubStreams(folders), to)
    decreases folders
  {
    if folders != [] {
      var end := folders[0].packStream.End();
      FlattenedSubStreamsTile(crc32, bytes, end, folders[1..], to);
      TileConcat(from, folders[0].substreams, end, AllSubStreams(folders[1..]), to);
    }
  }

  lemma {:induction false} TileLength(from: nat, subs: seq<SubStream>, to: nat)
    requires SubStreamsTile(from, subs, to)
    ensures from + SubStreamBytes(subs) == to
    decreases subs
  {
    if subs != [] {
      TileLength(subs[0].payload.End(), subs[1..], to);
    }
  }

  lemma {:induction false} ClaimedBytes(members: seq<Member>)
    ensures SubStreamBytes(Claims(members)) == PayloadBytes(members)
  {
    if members != [] {
      ClaimedBytes(members[1..]);
      if members[0].evidence.Some? && members[0].evidence.value.payload.len != 0 {
        assert Claims(members)[1..] == Claims(members[1..]);
      } else {
        assert Claims(members) == Claims(members[1..]);
      }
    }
  }

  /**
   After acceptance the nonempty member payloads, in member order, tile the source from the end of
   the signature header to the next header, so no byte of the pack region is lost or shared.
   */
  lemma MembersTilePackRegion(crc32: Checksum, bytes: seq<byte>, ir: ArchiveIr)
    requires Accepts(crc32, bytes, ir)
    ensures SubStreamsTile(32, Claims(ir.members), |bytes| - ir.sevenz.value.nextHeader.len)
    ensures 32 + PayloadBytes(ir.members) + ir.sevenz.value.nextHeader.len == |bytes|
  {
    hide SignatureAgrees, FoldersTile, FolderAgrees, SubStreamsTile, Claims, AllSubStreams, MemberAgrees,
         SubStreamBytes, PayloadBytes;
    var e := ir.sevenz.value;
    FlattenedSubStreamsTile(crc32, bytes, 32, e.folders, e.nextHeader.offset);
    TileLength(32, Claims(ir.members), e.nextHeader.offset);
    ClaimedBytes(ir.members);
  }

  lemma {:induction false} TileAgreesAt(from: nat, a: seq<SubStream>, to: nat, p: nat) returns (i: nat)
    requires SubStreamsTile(from, a, to) && from <= p < to
    ensures i < |a| && a[i].payload.offset <= p < a[i].payload.End()
    ensures forall j :: 0 <= j < |a| && a[j].payload.offset <= p < a[j].payload.End() ==> j == i
    decreases a
  {
    TileStartsAfter(a[0].payload.End(), a[1..], to);
    if p < a[0].payload.End() {
      i := 0;
      assert forall j :: 1 <= j < |a| ==> a[j] == a[1..][j - 1];
    } else {
      var k := TileAgreesAt(a[0].payload.End(), a[1..], to, p);
      i := k + 1;
      assert forall j :: 1 <= j < |a| ==> a[j] == a[1..][j - 1];
    }
  }

  lemma {:induction false} TileStartsAfter(from: nat, a: seq<SubStream>, to: nat)
    requires SubStreamsTile(from, a, to)
    ensures forall j :: 0 <= j < |a| ==> from <= a[j].payload.offset
    decreases a
  {
    if a != [] {
      TileStartsAfter(a[0].payload.End(), a[1..], to);
      assert forall j :: 1 <= j < |a| ==> a[j] == a[1..][j - 1];
    }
  }

  /** Every pack byte belongs to exactly one nonempty member payload. */
  lemma EveryPackByteHasOneMember(crc32: Checksum, bytes: seq<byte>, ir: ArchiveIr, p: nat) returns (i: nat)
    requires Accepts(crc32, bytes, ir) && 32 <= p < ir.sevenz.value.nextHeader.offset
    ensures i < |Claims(ir.members)|
    ensures var claims := Claims(ir.members);
            forall j :: 0 <= j < |claims| ==>
              (claims[j].payload.offset <= p < claims[j].payload.End() <==> j == i)
  {
    MembersTilePackRegion(crc32, bytes, ir);
    i := TileAgreesAt(32, Claims(ir.members), ir.sevenz.value.nextHeader.offset, p);
  }
}
