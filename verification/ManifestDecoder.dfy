/** Decoding the manifest records of a result: one candidate at most fits the bytes, and the loop finds it. */
module ManifestDecoder {
  import opened Prelude
  import opened Wire
  import opened WireStrings
  import opened ResultFrame
  import Lex
  import Paths

  datatype EntryFixed = EntryFixed(pathLen: u16, kind: Paths.Kind, size: u64, sha256: Digest)

  predicate EntryFixedAt(s: seq<byte>, at: nat, f: EntryFixed) {
    && at + MANIFEST_ENTRY_FIXED_BYTES <= |s|
    && LeU16(s, at) == f.pathLen
    && s[at + 2] == KindCode(f.kind) && s[at + 3] == 0
    && LeU64(s, at + 4) == f.size
    && s[at + 12..at + 44] == f.sha256
  }

  /** The first field of an entry's 44 bytes at fault, where an offset is counted in `s` from `base`. */
  function EntryFixedFault(s: seq<byte>, at: nat, base: nat): Option<ProtocolError> {
    if at + 2 > |s| then Some(ProtocolError(Truncated, base + at))
    else if LeU16(s, at) == 0 || LeU16(s, at) > MAX_PATH_BYTES then Some(ProtocolError(LimitExceeded, base + at + 2))
    else if at + 3 > |s| then Some(ProtocolError(Truncated, base + at + 2))
    else if s[at + 2] != 1 && s[at + 2] != 2 then Some(ProtocolError(InvalidEnum, base + at + 3))
    else if at + 4 > |s| then Some(ProtocolError(Truncated, base + at + 3))
    else if s[at + 3] != 0 then Some(ProtocolError(ReservedNonZero, base + at + 4))
    else if at + 12 > |s| then Some(ProtocolError(Truncated, base + at + 4))
    else if at + 44 > |s| then Some(ProtocolError(Truncated, base + at + 12))
    else None
  }

  /** The 44 bytes before an entry's path. */
  method DecodeEntryFixed(cursor: Cursor) returns (r: Result<EntryFixed, ProtocolError>)
    requires cursor.Valid()
    modifies cursor
    ensures cursor.Valid()
    ensures forall f: EntryFixed ::
              1 <= f.pathLen <= MAX_PATH_BYTES && EntryFixedAt(cursor.input, old(cursor.position), f)
              <==> r == Ok(f)
    ensures r.Ok? ==> cursor.position == old(cursor.position) + MANIFEST_ENTRY_FIXED_BYTES
    ensures r.Err? ==> cursor.base <= r.error.offset <= cursor.base + |cursor.input|
    ensures EntryFixedFault(cursor.input, old(cursor.position), cursor.base) == if r.Err? then Some(r.error) else None
    ensures r.Ok? ==> LeU16(cursor.input, old(cursor.position)) == r.value.pathLen
  {
    hide LeU16, LeU64;
    var pathLen :- cursor.U16();
    if pathLen == 0 || pathLen > MAX_PATH_BYTES {
      return Err(cursor.Error(LimitExceeded));
    }
    var kindByte :- cursor.U8();
    var kind;
    match kindByte {
      case 1 => kind := Paths.File;
      case 2 => kind := Paths.Directory;
      case _ => return Err(cursor.Error(InvalidEnum));
    }
    var reserved :- cursor.U8();
    if reserved != 0 {
      return Err(cursor.Error(ReservedNonZero));
    }
    var size :- cursor.U64();
    var sha256 :- cursor.Bytes(32);
    return Ok(EntryFixed(pathLen, kind, size, sha256));
  }

  lemma EntryParts(s: seq<byte>, at: nat, e: ManifestEntry)
    requires |e.path| <= MAX_PATH_BYTES
    ensures EntryAt(s, at, e) <==>
            EntryFixedAt(s, at, EntryFixed(|e.path|, e.kind, e.size, e.sha256))
            && Occurs(s, at + MANIFEST_ENTRY_FIXED_BYTES, e.path)
  {
    hide LeU16, LeU64;
  }

  /** What keeps the bytes at `at` from being an entry's record. */
  function EntryFault(s: seq<byte>, at: nat, base: nat): Option<ProtocolError> {
    var fixed := EntryFixedFault(s, at, base);
    if fixed.Some? then fixed
    else
      var path := StringFault(s, at + MANIFEST_ENTRY_FIXED_BYTES, LeU16(s, at), PathString);
      if path.None? then None else Some(ProtocolError(path.value, base + at + MANIFEST_ENTRY_FIXED_BYTES))
  }

  /** The entry standing at `at` is put together from its fixed part and its path. */
  lemma EntryByParts(s: seq<byte>, at: nat, fixed: Option<EntryFixed>, path: Option<Text>)
    requires forall f: EntryFixed :: 1 <= f.pathLen <= MAX_PATH_BYTES && EntryFixedAt(s, at, f) <==> fixed == Some(f)
    requires fixed.Some? ==>
               forall t: Text ::
                 |t| == fixed.value.pathLen && ValidString(t, PathString)
                 && Occurs(s, at + MANIFEST_ENTRY_FIXED_BYTES, t)
                 <==> path == Some(t)
    ensures forall e: ManifestEntry ::
              ValidPath(e.path) && EntryAt(s, at, e) <==>
              && fixed.Some? && path.Some?
              && e == ManifestEntry(path.value, fixed.value.kind, fixed.value.size, fixed.value.sha256)
  {
    forall e: ManifestEntry | ValidPath(e.path)
      ensures 1 <= |e.path| <= MAX_PATH_BYTES
      ensures EntryAt(s, at, e) <==>
              EntryFixedAt(s, at, EntryFixed(|e.path|, e.kind, e.size, e.sha256))
              && Occurs(s, at + MANIFEST_ENTRY_FIXED_BYTES, e.path)
    {
      EntryParts(s, at, e);
    }
    hide ValidPath, EntryBytes, EntryAt, EntryFixedAt, Occurs;
  }

  lemma EntryFaultIs(s: seq<byte>, at: nat, base: nat)
    ensures EntryFixedFault(s, at, base).Some? ==> EntryFault(s, at, base) == EntryFixedFault(s, at, base)
    ensures EntryFixedFault(s, at, base).None? ==> at + 2 <= |s|
    ensures EntryFixedFault(s, at, base).None? ==>
              var path := StringFault(s, at + MANIFEST_ENTRY_FIXED_BYTES, LeU16(s, at), PathString);
              && (EntryFault(s, at, base).None? <==> path.None?)
              && (path.Some? ==>
                    EntryFault(s, at, base) ==
                    Some(ProtocolError(path.value, base + at + MANIFEST_ENTRY_FIXED_BYTES)))
  {
    hide LeU16, StringFault;
  }

  /** One entry's record; order and directory evidence are the caller's to check. */
  method DecodeEntry(cursor: Cursor) returns (r: Result<ManifestEntry, ProtocolError>)
    requires cursor.Valid()
    modifies cursor
    ensures cursor.Valid()
    ensures forall e: ManifestEntry ::
              ValidPath(e.path) && EntryAt(cursor.input, old(cursor.position), e) <==> r == Ok(e)
    ensures r.Ok? ==> cursor.position == old(cursor.position) + |EntryBytes(r.value)|
    ensures r.Err? ==> cursor.base <= r.error.offset <= cursor.base + |cursor.input|
    ensures EntryFault(cursor.input, old(cursor.position), cursor.base) == if r.Err? then Some(r.error) else None
  {
    hide *;
    ghost var s, at := cursor.input, cursor.position;
    EntryFaultIs(s, at, cursor.base);
    var fixed := DecodeEntryFixed(cursor);
    if fixed.Err? {
      EntryByParts(s, at, None, None);
      return Err(fixed.error);
    }
    var path := BoundedString(cursor, fixed.value.pathLen, PathString);
    if path.Err? {
      EntryByParts(s, at, Some(fixed.value), None);
      return Err(path.error);
    }
    EntryByParts(s, at, Some(fixed.value), Some(path.value));
    var entry := ManifestEntry(path.value, fixed.value.kind, fixed.value.size, fixed.value.sha256);
    EntryLength(entry);
    return Ok(entry);
  }

  /** A well-formed manifest of `count` entries written from `at` on. */
  predicate ManifestAt(s: seq<byte>, at: nat, count: nat, manifest: seq<ManifestEntry>) {
    |manifest| == count && ManifestOk(manifest) && Occurs(s, at, Concat(EntryBytes, manifest))
  }

  lemma EntryOfManifest(s: seq<byte>, at: nat, count: nat, manifest: seq<ManifestEntry>, i: nat)
    requires i < count && ManifestAt(s, at, count, manifest)
    ensures |manifest| == count && EntryOk(manifest[i]) && ValidPath(manifest[i].path)
            && EntryAt(s, at + |Concat(EntryBytes, manifest[..i])|, manifest[i])
    ensures i > 0 ==> Lex.Less(manifest[i - 1].path, manifest[i].path)
  {
    RecordOccurs(EntryBytes, s, at, manifest, i);
    EntryLayout(s, at + |Concat(EntryBytes, manifest[..i])|, manifest[i]);
  }

  lemma ManifestRoom(s: seq<byte>, at: nat, count: nat, manifest: seq<ManifestEntry>)
    requires ManifestAt(s, at, count, manifest)
    ensures at + count * (MANIFEST_ENTRY_FIXED_BYTES + 1) <= |s|
  {
    forall i | 0 <= i < |manifest| ensures |EntryBytes(manifest[i])| >= MANIFEST_ENTRY_FIXED_BYTES + 1 {
      assert EntryOk(manifest[i]);
      EntryLength(manifest[i]);
    }
    ConcatLength(EntryBytes, manifest, MANIFEST_ENTRY_FIXED_BYTES + 1);
  }

  /** Every well-formed manifest at `at` starts with these entries. */
  ghost predicate Forced(s: seq<byte>, at: nat, count: nat, done: seq<ManifestEntry>) {
    && |done| <= count
    && forall m :: ManifestAt(s, at, count, m) ==> m[..|done|] == done
  }

  /** What may stand as the entry after `done`. */
  predicate MayFollow(s: seq<byte>, here: nat, done: seq<ManifestEntry>, e: ManifestEntry) {
    EntryOk(e) && EntryAt(s, here, e) && (done != [] ==> Lex.Less(done[|done| - 1].path, e.path))
  }

  /** The next entry of every candidate is what stands at the cursor. */
  lemma NextEntry(s: seq<byte>, at: nat, count: nat, done: seq<ManifestEntry>, m: seq<ManifestEntry>)
    requires Forced(s, at, count, done) && |done| < count && ManifestAt(s, at, count, m)
    ensures |m| == count && m[..|done|] == done && MayFollow(s, at + |Concat(EntryBytes, done)|, done, m[|done|])
  {
    hide ManifestAt, EntryAt, EntryOk, Concat, Lex.Less, EntryBytes;
    EntryOfManifest(s, at, count, m, |done|);
    assert m[..|done|] == done;
    assert done != [] ==> done[|done| - 1] == m[|done| - 1];
  }

  lemma NothingFollows(s: seq<byte>, at: nat, count: nat, done: seq<ManifestEntry>, here: nat)
    requires Forced(s, at, count, done) && |done| < count && here == at + |Concat(EntryBytes, done)|
    requires forall e :: !MayFollow(s, here, done, e)
    ensures forall m :: !ManifestAt(s, at, count, m)
  {
    hide *;
    forall m ensures !ManifestAt(s, at, count, m) {
      if ManifestAt(s, at, count, m) { NextEntry(s, at, count, done, m); }
    }
  }

  lemma OneFollows(s: seq<byte>, at: nat, count: nat, done: seq<ManifestEntry>, here: nat, entry: ManifestEntry)
    requires Forced(s, at, count, done) && |done| < count && here == at + |Concat(EntryBytes, done)|
    requires forall e :: MayFollow(s, here, done, e) ==> e == entry
    ensures Forced(s, at, count, done + [entry])
  {
    hide ManifestAt, EntryOk, EntryAt, EntryBytes, MayFollow, Concat, Lex.Less;
    forall m | ManifestAt(s, at, count, m) ensures |m| == count && m[..|done| + 1] == done + [entry] {
      NextEntry(s, at, count, done, m);
      assert m[..|done| + 1] == m[..|done|] + [m[|done|]];
    }
  }

  /** What keeps an entry from following these, if its record is in order. */
  function PlacementFault(done: seq<ManifestEntry>, e: ManifestEntry): Option<ErrorKind> {
    if done != [] && !Lex.Less(done[|done| - 1].path, e.path) then Some(NonCanonicalOrder)
    else if e.kind.Directory? && (e.size != 0 || e.sha256 != ZERO_DIGEST) then Some(InvalidSemanticState)
    else None
  }

  /** The bytes at `here` are not an entry, or an entry that may not follow `done`. */
  ghost predicate NextFault(s: seq<byte>, here: nat, done: seq<ManifestEntry>, base: nat, error: ProtocolError) {
    || EntryFault(s, here, base) == Some(error)
    || exists e: ManifestEntry ::
         && ValidPath(e.path) && EntryAt(s, here, e) && PlacementFault(done, e) == Some(error.kind)
         && error.offset == base + here + |EntryBytes(e)|
  }

  /** No room for so many entries, or a fault behind a well-formed beginning. */
  ghost predicate ManifestFault(s: seq<byte>, at: nat, count: nat, base: nat, error: ProtocolError) {
    if at + count * (MANIFEST_ENTRY_FIXED_BYTES + 1) > |s| then error == ProtocolError(CountInconsistent, base + at)
    else exists done :: && |done| < count && ManifestAt(s, at, |done|, done)
                        && NextFault(s, at + |Concat(EntryBytes, done)|, done, base, error)
  }

  lemma FaultBehind(s: seq<byte>, at: nat, count: nat, base: nat, done: seq<ManifestEntry>, error: ProtocolError)
    requires at + count * (MANIFEST_ENTRY_FIXED_BYTES + 1) <= |s| && |done| < count
    requires ManifestOk(done) && Occurs(s, at, Concat(EntryBytes, done))
    requires NextFault(s, at + |Concat(EntryBytes, done)|, done, base, error)
    ensures ManifestFault(s, at, count, base, error)
  {
    hide NextFault, ManifestOk, Occurs, Concat;
    assert ManifestAt(s, at, |done|, done);
  }

  /** One turn of the manifest loop: decode, compare with the previous path, check directory evidence. */
  method DecodeNext(cursor: Cursor, done: seq<ManifestEntry>) returns (r: Result<ManifestEntry, ProtocolError>)
    requires cursor.Valid()
    modifies cursor
    ensures cursor.Valid()
    ensures forall e :: MayFollow(cursor.input, old(cursor.position), done, e) <==> r == Ok(e)
    ensures r.Ok? ==> cursor.position == old(cursor.position) + |EntryBytes(r.value)|
    ensures r.Err? ==> cursor.base <= r.error.offset <= cursor.base + |cursor.input|
    ensures r.Err? ==> NextFault(cursor.input, old(cursor.position), done, cursor.base, r.error)
  {
    hide EntryBytes, EntryAt, ValidPath, EntryFault, Lex.Less;
    var entry :- DecodeEntry(cursor);
    if done != [] && !Lex.Less(done[|done| - 1].path, entry.path) {
      return Err(cursor.Error(NonCanonicalOrder));
    }
    if entry.kind.Directory? && (entry.size != 0 || entry.sha256 != ZERO_DIGEST) {
      return Err(cursor.Error(InvalidSemanticState));
    }
    return Ok(entry);
  }

  /** Pushing the entry at the cursor keeps a well-formed prefix. */
  lemma PushEntry(s: seq<byte>, at: nat, done: seq<ManifestEntry>, entry: ManifestEntry)
    requires ManifestOk(done) && Occurs(s, at, Concat(EntryBytes, done))
    requires MayFollow(s, at + |Concat(EntryBytes, done)|, done, entry)
    ensures ManifestOk(done + [entry]) && Occurs(s, at, Concat(EntryBytes, done + [entry]))
    ensures |Concat(EntryBytes, done + [entry])| == |Concat(EntryBytes, done)| + |EntryBytes(entry)|
  {
    hide EntryAt, EntryBytes, ValidPath, Occurs;
    EntryLayout(s, at + |Concat(EntryBytes, done)|, entry);
    ConcatAppend(EntryBytes, done, entry);
    OccursAppend(s, at, Concat(EntryBytes, done), EntryBytes(entry));
  }

  method DecodeManifest(cursor: Cursor, count: nat) returns (r: Result<seq<ManifestEntry>, ProtocolError>)
    requires cursor.Valid()
    modifies cursor
    ensures cursor.Valid()
    ensures forall m :: ManifestAt(cursor.input, old(cursor.position), count, m) <==> r == Ok(m)
    ensures r.Ok? ==> cursor.position == old(cursor.position) + |Concat(EntryBytes, r.value)|
    ensures r.Err? ==> cursor.base <= r.error.offset <= cursor.base + |cursor.input|
    ensures r.Err? ==> ManifestFault(cursor.input, old(cursor.position), count, cursor.base, r.error)
  {
    ghost var s, at := cursor.input, cursor.position;
    if count * (MANIFEST_ENTRY_FIXED_BYTES + 1) > cursor.Remaining() {
      forall m ensures !ManifestAt(s, at, count, m) {
        if ManifestAt(s, at, count, m) { ManifestRoom(s, at, count, m); }
      }
      return Err(cursor.Error(CountInconsistent));
    }
    var manifest: seq<ManifestEntry> := [];
    while |manifest| < count
      invariant cursor.Valid() && Forced(s, at, count, manifest)
      invariant ManifestOk(manifest)
      invariant cursor.position == at + |Concat(EntryBytes, manifest)|
      invariant Occurs(s, at, Concat(EntryBytes, manifest))
      decreases count - |manifest|
    {
      hide *;
      ghost var here := cursor.position;
      var entry := DecodeNext(cursor, manifest);
      if entry.Err? {
        NothingFollows(s, at, count, manifest, here);
        FaultBehind(s, at, count, cursor.base, manifest, entry.error);
        return Err(entry.error);
      }
      PushEntry(s, at, manifest, entry.value);
      OneFollows(s, at, count, manifest, here, entry.value);
      manifest := manifest + [entry.value];
    }
    assert ManifestAt(s, at, count, manifest);
    forall m | ManifestAt(s, at, count, m) ensures m == manifest {
      assert m[..|manifest|] == manifest == m;
    }
    return Ok(manifest);
  }
}
