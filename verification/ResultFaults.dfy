/** A payload is a well-formed result or has one fault, never two: the error reported is the only one there is. */
module ResultFaults {
  import opened Prelude
  import opened Wire
  import opened WireStrings
  import opened ResultFrame
  import opened ManifestDecoder
  import FindingDecoder
  import opened ResultDecoder
  import opened WireProtocol
  import Lex
  import Utf8

  // ---- Manifest entries ----

  lemma StandingEntryHasNoFault(s: seq<byte>, at: nat, e: ManifestEntry, base: nat)
    requires ValidPath(e.path) && EntryAt(s, at, e)
    ensures EntryFault(s, at, base).None?
  {
    hide LeU16, LeU64, Utf8.Valid;
    assert s[at + 44..at + 44 + |e.path|] == e.path;
  }

  lemma NextFaultIsOne(
    s: seq<byte>, here: nat, done: seq<ManifestEntry>, base: nat, a: ProtocolError, b: ProtocolError)
    requires NextFault(s, here, done, base, a) && NextFault(s, here, done, base, b)
    ensures a == b
  {
    hide EntryFault, EntryAt, EntryBytes, PlacementFault, ValidPath;
    forall e: ManifestEntry | ValidPath(e.path) && EntryAt(s, here, e) ensures EntryFault(s, here, base).None? {
      StandingEntryHasNoFault(s, here, e, base);
    }
    forall e: ManifestEntry, f: ManifestEntry |
      ValidPath(e.path) && EntryAt(s, here, e) && ValidPath(f.path) && EntryAt(s, here, f)
      ensures e == f
    {
      EntriesAgree(s, here, e, f);
    }
  }

  lemma FollowerHasNoFault(
    s: seq<byte>, here: nat, done: seq<ManifestEntry>, base: nat, e: ManifestEntry, error: ProtocolError)
    requires MayFollow(s, here, done, e)
    ensures !NextFault(s, here, done, base, error)
  {
    assert ValidPath(e.path) && PlacementFault(done, e).None?;
    hide EntryFault, EntryAt, EntryBytes, PlacementFault, ValidPath;
    StandingEntryHasNoFault(s, here, e, base);
    forall f: ManifestEntry | ValidPath(f.path) && EntryAt(s, here, f) ensures e == f {
      EntriesAgree(s, here, e, f);
    }
  }

  lemma ManifestPrefix(s: seq<byte>, at: nat, m: seq<ManifestEntry>, k: nat)
    requires ManifestAt(s, at, |m|, m) && k <= |m|
    ensures ManifestAt(s, at, k, m[..k])
  {
    hide EntryOk, EntryBytes, Occurs, Lex.Less;
    assert m == m[..k] + m[k..];
    ConcatSplit(EntryBytes, m[..k], m[k..]);
    OccursAppend(s, at, Concat(EntryBytes, m[..k]), Concat(EntryBytes, m[k..]));
  }

  /** Behind a well-formed beginning that goes on, nothing is at fault. */
  lemma NoFaultInside(
    s: seq<byte>, at: nat, base: nat, done: seq<ManifestEntry>, m: seq<ManifestEntry>, error: ProtocolError)
    requires ManifestAt(s, at, |done|, done) && ManifestAt(s, at, |m|, m) && |done| < |m|
    ensures !NextFault(s, at + |Concat(EntryBytes, done)|, done, base, error)
  {
    hide *;
    var k := |done|;
    ManifestPrefix(s, at, m, k);
    ManifestsAgree(s, at, k, done, m[..k], k);
    assert done[..k] == done && m[..k][..k] == m[..k];
    EntryOfManifest(s, at, |m|, m, k);
    NextMember(s, at, done, m);
    FollowerHasNoFault(s, at + |Concat(EntryBytes, done)|, done, base, m[k], error);
  }

  lemma NextMember(s: seq<byte>, at: nat, done: seq<ManifestEntry>, m: seq<ManifestEntry>)
    requires |done| < |m| && m[..|done|] == done && EntryOk(m[|done|])
    requires EntryAt(s, at + |Concat(EntryBytes, m[..|done|])|, m[|done|])
    requires |done| > 0 ==> Lex.Less(m[|done| - 1].path, m[|done|].path)
    ensures MayFollow(s, at + |Concat(EntryBytes, done)|, done, m[|done|])
  {
    hide EntryOk, EntryAt, Concat, Lex.Less;
    assert done != [] ==> done[|done| - 1] == m[|done| - 1];
  }

  lemma ManifestFaultIsOne(s: seq<byte>, at: nat, count: nat, base: nat, a: ProtocolError, b: ProtocolError)
    requires ManifestFault(s, at, count, base, a) && ManifestFault(s, at, count, base, b)
    ensures a == b
  {
    hide ManifestAt, NextFault, Concat;
    if at + count * (MANIFEST_ENTRY_FIXED_BYTES + 1) <= |s| {
      var x :| |x| < count && ManifestAt(s, at, |x|, x) && NextFault(s, at + |Concat(EntryBytes, x)|, x, base, a);
      var y :| |y| < count && ManifestAt(s, at, |y|, y) && NextFault(s, at + |Concat(EntryBytes, y)|, y, base, b);
      if |x| < |y| {
        NoFaultInside(s, at, base, x, y, a);
      } else if |y| < |x| {
        NoFaultInside(s, at, base, y, x, b);
      } else {
        ManifestsAgree(s, at, |x|, x, y, |x|);
        assert x[..|x|] == x && y[..|y|] == y;
        NextFaultIsOne(s, at + |Concat(EntryBytes, x)|, x, base, a, b);
      }
    }
  }

  lemma ManifestHasNoFault(s: seq<byte>, at: nat, count: nat, base: nat, m: seq<ManifestEntry>, error: ProtocolError)
    requires ManifestAt(s, at, count, m)
    ensures !ManifestFault(s, at, count, base, error)
  {
    ManifestRoom(s, at, count, m);
    assert |m| == count;
    hide ManifestAt, NextFault, Concat;
    forall done | |done| < count && ManifestAt(s, at, |done|, done)
      ensures !NextFault(s, at + |Concat(EntryBytes, done)|, done, base, error)
    {
      NoFaultInside(s, at, base, done, m, error);
    }
  }

  // ---- Findings ----

  lemma StandingFindingHasNoFault(s: seq<byte>, at: nat, f: ProtocolFinding, base: nat)
    requires FindingOk(f) && FindingAt(s, at, f)
    ensures FindingDecoder.FindingFault(s, at, base).None?
  {
    FindingDecoder.FindingParts(s, at, f);
    var fixed := FindingDecoder.FixedOf(f);
    FixedHasNoFault(s, at, fixed, base);
    FindingDecoder.FixedLengths(s, at, fixed, base);
    StringsHaveNoFault(s, at + FINDING_FIXED_BYTES, fixed, f, base);
    hide *;
  }

  lemma FixedHasNoFault(s: seq<byte>, at: nat, fixed: FindingDecoder.FindingFixed, base: nat)
    requires FindingDecoder.LengthsInRange(fixed) && FindingDecoder.FixedAt(s, at, fixed)
    ensures FindingDecoder.FixedFault(s, at, base).None?
  {
    hide LeU16;
  }

  lemma StringsHaveNoFault(
    s: seq<byte>, at: nat, fixed: FindingDecoder.FindingFixed, f: ProtocolFinding, base: nat)
    requires FindingOk(f) && FindingDecoder.Announces(fixed, f) && FindingDecoder.StringsAt(s, at, f)
    ensures FindingDecoder.StringsFault(s, at, fixed.codeLen, fixed.detailLen, fixed.pathLen, base).None?
  {
    hide Utf8.Valid, ValidPath, ValidCode, ValidDetail;
  }

  lemma FindingsPrefix(s: seq<byte>, at: nat, m: seq<ProtocolFinding>, k: nat)
    requires FindingDecoder.FindingsAt(s, at, |m|, m) && k <= |m|
    ensures FindingDecoder.FindingsAt(s, at, k, m[..k])
  {
    hide FindingOk, FindingBytes, Occurs;
    assert m == m[..k] + m[k..];
    ConcatSplit(FindingBytes, m[..k], m[k..]);
    OccursAppend(s, at, Concat(FindingBytes, m[..k]), Concat(FindingBytes, m[k..]));
  }

  lemma NoFindingFaultInside(s: seq<byte>, at: nat, base: nat, done: seq<ProtocolFinding>, m: seq<ProtocolFinding>)
    requires FindingDecoder.FindingsAt(s, at, |done|, done) && FindingDecoder.FindingsAt(s, at, |m|, m)
    requires |done| < |m|
    ensures FindingDecoder.FindingFault(s, at + |Concat(FindingBytes, done)|, base).None?
  {
    hide *;
    var k := |done|;
    FindingsPrefix(s, at, m, k);
    FindingListsAgree(s, at, k, done, m[..k], k);
    assert done[..k] == done && m[..k][..k] == m[..k];
    FindingDecoder.FindingOfList(s, at, |m|, m, k);
    StandingFindingHasNoFault(s, at + |Concat(FindingBytes, done)|, m[k], base);
  }

  lemma FindingsFaultIsOne(s: seq<byte>, at: nat, count: nat, base: nat, a: ProtocolError, b: ProtocolError)
    requires FindingDecoder.FindingsFault(s, at, count, base, a) && FindingDecoder.FindingsFault(s, at, count, base, b)
    ensures a == b
  {
    hide FindingDecoder.FindingsAt, FindingDecoder.FindingFault, Concat;
    if at + count * (FINDING_FIXED_BYTES + 1) <= |s| {
      var x :| |x| < count && FindingDecoder.FindingsAt(s, at, |x|, x)
               && FindingDecoder.FindingFault(s, at + |Concat(FindingBytes, x)|, base) == Some(a);
      var y :| |y| < count && FindingDecoder.FindingsAt(s, at, |y|, y)
               && FindingDecoder.FindingFault(s, at + |Concat(FindingBytes, y)|, base) == Some(b);
      if |x| < |y| {
        NoFindingFaultInside(s, at, base, x, y);
      } else if |y| < |x| {
        NoFindingFaultInside(s, at, base, y, x);
      } else {
        FindingListsAgree(s, at, |x|, x, y, |x|);
        assert x[..|x|] == x && y[..|y|] == y;
      }
    }
  }

  lemma FindingsHaveNoFault(s: seq<byte>, at: nat, count: nat, base: nat, m: seq<ProtocolFinding>, error: ProtocolError)
    requires FindingDecoder.FindingsAt(s, at, count, m)
    ensures !FindingDecoder.FindingsFault(s, at, count, base, error)
  {
    FindingDecoder.FindingsRoom(s, at, count, m);
    assert |m| == count;
    hide FindingDecoder.FindingsAt, FindingDecoder.FindingFault, Concat;
    forall done | |done| < count && FindingDecoder.FindingsAt(s, at, |done|, done)
      ensures FindingDecoder.FindingFault(s, at + |Concat(FindingBytes, done)|, base).None?
    {
      NoFindingFaultInside(s, at, base, done, m);
    }
  }

  // ---- The payload ----

  lemma RestFaultIsOne(payload: seq<byte>, at: nat, count: nat, a: ProtocolError, b: ProtocolError)
    requires RestFault(payload, at, count, a) && RestFault(payload, at, count, b)
    ensures a == b
  {
    hide FindingDecoder.FindingsAt, FindingDecoder.FindingsFault, Concat;
    if FindingDecoder.FindingsFault(payload, at, count, FRAME_HEADER_BYTES, a)
       && FindingDecoder.FindingsFault(payload, at, count, FRAME_HEADER_BYTES, b)
    {
      FindingsFaultIsOne(payload, at, count, FRAME_HEADER_BYTES, a, b);
    } else {
      var f :| FindingDecoder.FindingsAt(payload, at, count, f);
      FindingsHaveNoFault(payload, at, count, FRAME_HEADER_BYTES, f, a);
      FindingsHaveNoFault(payload, at, count, FRAME_HEADER_BYTES, f, b);
      forall g | FindingDecoder.FindingsAt(payload, at, count, g) ensures f == g {
        SameFindings(payload, at, count, f, g);
      }
    }
  }

  lemma SameFindings(s: seq<byte>, at: nat, count: nat, a: seq<ProtocolFinding>, b: seq<ProtocolFinding>)
    requires FindingDecoder.FindingsAt(s, at, count, a) && FindingDecoder.FindingsAt(s, at, count, b)
    ensures a == b
  {
    hide *;
    ListLengths(s, at, count);
    FindingListsAgree(s, at, count, a, b, count);
    assert a[..count] == a && b[..count] == b;
  }

  lemma SameManifest(s: seq<byte>, at: nat, count: nat, a: seq<ManifestEntry>, b: seq<ManifestEntry>)
    requires ManifestAt(s, at, count, a) && ManifestAt(s, at, count, b)
    ensures a == b
  {
    hide *;
    ListLengths(s, at, count);
    ManifestsAgree(s, at, count, a, b, count);
    assert a[..count] == a && b[..count] == b;
  }

  lemma RecordsFaultIsOne(payload: seq<byte>, members: nat, findings: nat, a: ProtocolError, b: ProtocolError)
    requires RecordsFault(payload, members, findings, a) && RecordsFault(payload, members, findings, b)
    ensures a == b
  {
    hide ManifestAt, ManifestFault, RestFault, Concat;
    var base, at := FRAME_HEADER_BYTES, RESULT_FIXED_PAYLOAD_BYTES;
    if ManifestFault(payload, at, members, base, a) && ManifestFault(payload, at, members, base, b) {
      ManifestFaultIsOne(payload, at, members, base, a, b);
    } else {
      var m :| ManifestAt(payload, at, members, m);
      ManifestHasNoFault(payload, at, members, base, m, a);
      ManifestHasNoFault(payload, at, members, base, m, b);
      forall n | ManifestAt(payload, at, members, n) ensures m == n {
        SameManifest(payload, at, members, m, n);
      }
      RestFaultIsOne(payload, at + |Concat(EntryBytes, m)|, findings, a, b);
    }
  }

  /** No payload has two faults. */
  lemma FaultIsUnique(payload: seq<byte>, expected: OperationId, a: ProtocolError, b: ProtocolError)
    requires PayloadFault(payload, expected, a) && PayloadFault(payload, expected, b)
    ensures a == b
  {
    hide RecordsFault, HeadFault, LeU32;
    if |payload| >= RESULT_FIXED_PAYLOAD_BYTES && HeadFault(payload, expected, FRAME_HEADER_BYTES).None? {
      RecordsFaultIsOne(payload, LeU32(payload, 20), LeU32(payload, 24), a, b);
    }
  }

  lemma HeadHasNoFault(payload: seq<byte>, h: ResultHead, expected: OperationId)
    requires Admissible(h, expected) && HeadAt(payload, h)
    ensures |payload| >= RESULT_FIXED_PAYLOAD_BYTES && HeadFault(payload, expected, FRAME_HEADER_BYTES).None?
    ensures LeU32(payload, 20) == h.memberCount && LeU32(payload, 24) == h.findingCount
  {
    hide LeU16, LeU32;
  }

  lemma RecordsHaveNoFault(payload: seq<byte>, r: WorkerResult, expected: OperationId, error: ProtocolError)
    requires Shaped(payload, r, expected)
    ensures !RecordsFault(payload, |r.manifest|, |r.findings|, error)
  {
    ShapedParts(payload, r, expected);
    EntriesEndIs(r);
    hide Shaped, ManifestAt, ManifestFault, Concat, FindingDecoder.FindingsAt, FindingDecoder.FindingsFault;
    var base, at := FRAME_HEADER_BYTES, RESULT_FIXED_PAYLOAD_BYTES;
    ManifestHasNoFault(payload, at, |r.manifest|, base, r.manifest, error);
    forall m | ManifestAt(payload, at, |r.manifest|, m) ensures m == r.manifest {
      SameManifest(payload, at, |r.manifest|, m, r.manifest);
    }
    FindingsHaveNoFault(payload, EntriesEnd(r), |r.findings|, base, r.findings, error);
    forall f | FindingDecoder.FindingsAt(payload, EntriesEnd(r), |r.findings|, f) ensures f == r.findings {
      SameFindings(payload, EntriesEnd(r), |r.findings|, f, r.findings);
    }
  }

  /** A payload with a fault is not well formed. */
  lemma ShapedHasNoFault(payload: seq<byte>, r: WorkerResult, expected: OperationId, error: ProtocolError)
    requires Shaped(payload, r, expected)
    ensures !PayloadFault(payload, expected, error)
  {
    ShapedParts(payload, r, expected);
    HeadHasNoFault(payload, HeadOf(r), expected);
    RecordsHaveNoFault(payload, r, expected, error);
    hide RecordsFault, HeadFault, LeU32, Shaped, HeadAt;
  }
}
