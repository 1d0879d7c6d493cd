/** Slash-separated paths as byte strings: ancestors and topology. */
module Paths {
  import opened Prelude
  import opened Lex

  type Path = seq<byte>

  /** `p` names a directory on the way to `q`. */
  predicate IsAncestor(p: Path, q: Path) {
    |p| < |q| && q[..|p|] == p && q[|p|] == SLASH
  }

  datatype Kind = File | Directory

  datatype Entry = Entry(path: Path, kind: Kind)

  /** No file stands where the other path needs a directory. */
  predicate Compatible(a: Entry, b: Entry) {
    && a.path != b.path
    && (a.kind.File? ==> !IsAncestor(a.path, b.path))
    && (b.kind.File? ==> !IsAncestor(b.path, a.path))
  }

  /** Every two entries are compatible. */
  predicate PairwiseCompatible(entries: seq<Entry>) {
    forall i, j :: 0 <= i < j < |entries| ==> Compatible(entries[i], entries[j])
  }

  /** Topology of a list without regard to duplicates: no file is an ancestor of another entry. */
  predicate NoFileAbove(entries: seq<Entry>) {
    forall i, j :: 0 <= i < |entries| && 0 <= j < |entries| && entries[i].kind.File? ==>
      !IsAncestor(entries[i].path, entries[j].path)
  }

  predicate Ordered(entries: seq<Entry>) {
    forall i, j :: 0 <= i < j < |entries| ==> Less(entries[i].path, entries[j].path)
  }

  lemma OrderedPathsAreDistinct(entries: seq<Entry>, i: nat, j: nat)
    requires Ordered(entries) && i < j < |entries|
    ensures entries[i].path != entries[j].path
  {
    LessIrreflexive(entries[i].path);
  }

  /** A strictly ordered list is pairwise compatible exactly when no file is above another entry. */
  lemma OrderedTopology(entries: seq<Entry>)
    requires Ordered(entries)
    ensures PairwiseCompatible(entries) <==> NoFileAbove(entries)
  {
    forall i, j | 0 <= i < j < |entries| ensures entries[i].path != entries[j].path {
      OrderedPathsAreDistinct(entries, i, j);
    }
    if PairwiseCompatible(entries) {
      forall i, j | 0 <= i < |entries| && 0 <= j < |entries| && entries[i].kind.File?
        ensures !IsAncestor(entries[i].path, entries[j].path)
      {
        if i < j { assert Compatible(entries[i], entries[j]); }
        if j < i { assert Compatible(entries[j], entries[i]); }
      }
    }
  }

  // ---- Pairwise compatibility does not depend on order ----

  predicate CompatibleWithAll(e: Entry, entries: seq<Entry>) {
    forall i :: 0 <= i < |entries| ==> Compatible(e, entries[i])
  }

  lemma PairwiseCons(entries: seq<Entry>)
    requires entries != []
    ensures PairwiseCompatible(entries) <==>
            CompatibleWithAll(entries[0], entries[1..]) && PairwiseCompatible(entries[1..])
  {
    assert forall i :: 1 <= i < |entries| ==> entries[i] == entries[1..][i - 1];
    if CompatibleWithAll(entries[0], entries[1..]) && PairwiseCompatible(entries[1..]) {
      forall i, j | 0 <= i < j < |entries| ensures Compatible(entries[i], entries[j]) {
        assert entries[j] == entries[1..][j - 1];
        if i > 0 { assert entries[i] == entries[1..][i - 1]; }
      }
    }
    if PairwiseCompatible(entries) {
      forall j | 0 <= j < |entries| - 1 ensures Compatible(entries[0], entries[1..][j]) {
        assert entries[1..][j] == entries[j + 1];
      }
    }
  }

  lemma PairwiseRemove(entries: seq<Entry>, k: nat)
    requires k < |entries|
    ensures var rest := entries[..k] + entries[k + 1..];
            PairwiseCompatible(entries) <==> CompatibleWithAll(entries[k], rest) && PairwiseCompatible(rest)
  {
    var rest := entries[..k] + entries[k + 1..];
    assert forall i :: 0 <= i < |rest| ==> rest[i] == entries[if i < k then i else i + 1];
    if PairwiseCompatible(entries) {
      forall i | 0 <= i < |rest| ensures Compatible(entries[k], rest[i]) {
        var at := if i < k then i else i + 1;
        assert Compatible(entries[if at < k then at else k], entries[if at < k then k else at]);
      }
    }
    if CompatibleWithAll(entries[k], rest) && PairwiseCompatible(rest) {
      forall i, j | 0 <= i < j < |entries| ensures Compatible(entries[i], entries[j]) {
        var a, b := if i < k then i else i - 1, if j < k then j else j - 1;
        if i == k { assert entries[j] == rest[b]; }
        else if j == k { assert entries[i] == rest[a]; }
        else { assert entries[i] == rest[a] && entries[j] == rest[b]; }
      }
    }
  }

  lemma {:induction false} PairwisePermute(a: seq<Entry>, b: seq<Entry>)
    requires multiset(a) == multiset(b)
    ensures PairwiseCompatible(a) <==> PairwiseCompatible(b)
    decreases |a|
  {
    hide Compatible;
    assert |multiset(a)| == |a| && |multiset(b)| == |b|;
    if a != [] {
      assert a[0] in multiset(b);
      var k :| 0 <= k < |b| && b[k] == a[0];
      var rest := b[..k] + b[k + 1..];
      RemoveMatching(a, b, k);
      PairwiseCons(a);
      PairwiseRemove(b, k);
      PairwisePermute(a[1..], rest);
      forall i | 0 <= i < |rest| ensures rest[i] in a[1..] { assert rest[i] in multiset(rest); }
      forall i | 0 <= i < |a| - 1 ensures a[1..][i] in rest { assert a[1..][i] in multiset(a[1..]); }
    }
  }

  // ---- The topology check by binary search ----

  /** `binary_search_by` on an ordered list. */
  method BinarySearch(entries: seq<Entry>, key: Path) returns (found: Option<nat>)
    requires Ordered(entries)
    ensures found.Some? ==> found.value < |entries| && entries[found.value].path == key
    ensures found.None? ==> forall i :: 0 <= i < |entries| ==> entries[i].path != key
  {
    hide Less;
    var low, high: nat := 0, |entries|;
    while low < high
      invariant low <= high <= |entries|
      invariant forall i :: 0 <= i < low ==> entries[i].path != key
      invariant forall i :: high <= i < |entries| ==> entries[i].path != key
      decreases high - low
    {
      var mid := (low + high) / 2;
      if entries[mid].path == key {
        return Some(mid);
      }
      if Less(entries[mid].path, key) {
        forall i | 0 <= i <= mid ensures entries[i].path != key {
          if entries[i].path == key { LessAsymmetric(entries[mid].path, key); }
        }
        low := mid + 1;
      } else {
        assert forall i :: mid <= i < |entries| ==> entries[i].path != key;
        high := mid;
      }
    }
    return None;
  }

  /** `validate_manifest_topology`: one binary search per separator stands in for a pairwise scan. */
  method ValidateTopology(entries: seq<Entry>) returns (ok: bool)
    requires Ordered(entries)
    ensures ok <==> NoFileAbove(entries)
  {
    hide Less;
    for j := 0 to |entries|
      invariant forall i, k :: 0 <= i < |entries| && 0 <= k < j && entries[i].kind.File? ==>
                               !IsAncestor(entries[i].path, entries[k].path)
    {
      var path := entries[j].path;
      for separator := 0 to |path|
        invariant forall i :: 0 <= i < |entries| && entries[i].kind.File? && |entries[i].path| < separator ==>
                              !IsAncestor(entries[i].path, path)
      {
        if path[separator] == SLASH {
          var ancestor := path[..separator];
          var found := BinarySearch(entries, ancestor);
          if found.Some? && entries[found.value].kind.File? {
            assert IsAncestor(entries[found.value].path, entries[j].path);
            return false;
          }
          forall i | 0 <= i < |entries| && entries[i].path == ancestor ensures !entries[i].kind.File? {
            if found.Some? && found.value != i {
              OrderedPathsAreDistinct(entries, if i < found.value then i else found.value,
                                      if i < found.value then found.value else i);
            }
          }
        }
      }
    }
    return true;
  }
}
