/** The member list that a run reports once everything is verified: sorted by path. */
module MembersView {
  import opened Prelude
  import opened Lex
  import opened Execution

  predicate Ascending(view: seq<Member>) {
    forall i, j :: 0 <= i < j < |view| ==> Less(view[i].canonicalPath, view[j].canonicalPath)
  }

  /** The same members, each once and in ascending order of their paths. */
  ghost predicate Shows(view: seq<Member>, members: seq<Member>) {
    multiset(view) == multiset(members) && Ascending(view)
  }

  // ---- sort_by(path) ----

  /** Inserts `m` in front of the first member whose path is not before its own. */
  function InsertByPath(m: Member, sorted: seq<Member>): (r: seq<Member>)
    ensures multiset(r) == multiset{m} + multiset(sorted)
  {
    if sorted == [] then [m]
    else if !Less(sorted[0].canonicalPath, m.canonicalPath) then [m] + sorted
    else
      assert sorted == [sorted[0]] + sorted[1..];
      [sorted[0]] + InsertByPath(m, sorted[1..])
  }

  function SortByPath(members: seq<Member>): (r: seq<Member>)
    ensures multiset(r) == multiset(members)
  {
    if members == [] then []
    else
      assert members == [members[0]] + members[1..];
      InsertByPath(members[0], SortByPath(members[1..]))
  }

  predicate AllAfter(low: seq<byte>, view: seq<Member>) {
    forall i :: 0 <= i < |view| ==> Less(low, view[i].canonicalPath)
  }

  lemma {:induction false} InsertedIsAfter(low: seq<byte>, m: Member, sorted: seq<Member>)
    requires AllAfter(low, sorted) && Less(low, m.canonicalPath)
    ensures AllAfter(low, InsertByPath(m, sorted))
  {
    hide Less;
    if sorted != [] {
      InsertedIsAfter(low, m, sorted[1..]);
    }
  }

  lemma {:induction false} InsertKeepsAscending(m: Member, sorted: seq<Member>)
    requires Ascending(sorted)
    requires forall i :: 0 <= i < |sorted| ==> sorted[i].canonicalPath != m.canonicalPath
    ensures Ascending(InsertByPath(m, sorted))
  {
    hide Less;
    if sorted != [] {
      var first := sorted[0].canonicalPath;
      if Less(first, m.canonicalPath) {
        InsertKeepsAscending(m, sorted[1..]);
        InsertedIsAfter(first, m, sorted[1..]);
      } else {
        LessTotal(first, m.canonicalPath);
        forall i | 0 <= i < |sorted| ensures Less(m.canonicalPath, sorted[i].canonicalPath) {
          if i > 0 { LessTransitive(m.canonicalPath, first, sorted[i].canonicalPath); }
        }
      }
    }
  }

  /** Members with distinct paths come out of the sort in their one ascending order. */
  lemma {:induction false} SortShows(members: seq<Member>)
    requires DistinctPaths(members)
    ensures Shows(SortByPath(members), members)
  {
    hide Less, InsertByPath;
    if members != [] {
      var rest := SortByPath(members[1..]);
      SortShows(members[1..]);
      forall i | 0 <= i < |rest| ensures rest[i].canonicalPath != members[0].canonicalPath {
        assert rest[i] in multiset(members[1..]);
      }
      InsertKeepsAscending(members[0], rest);
    }
  }

  lemma SameFirst(a: seq<Member>, b: seq<Member>, i: nat, j: nat)
    requires Ascending(a) && Ascending(b) && i < |b| && j < |a| && b[i] == a[0] && a[j] == b[0]
    ensures a[0] == b[0]
  {
    hide Less;
    if i > 0 && j > 0 {
      assert Less(b[0].canonicalPath, b[i].canonicalPath) && Less(a[0].canonicalPath, a[j].canonicalPath);
      LessAsymmetric(a[0].canonicalPath, b[0].canonicalPath);
    }
  }

  lemma TailAscends(a: seq<Member>)
    requires Ascending(a) && a != []
    ensures Ascending(a[1..]) && a == [a[0]] + a[1..]
  {
    hide Less;
  }

  /** The list shown is determined by the members, not by their order in the archive. */
  lemma {:induction false} ShownListIsUnique(a: seq<Member>, b: seq<Member>)
    requires multiset(a) == multiset(b) && Ascending(a) && Ascending(b)
    ensures a == b
  {
    hide *;
    assert |multiset(a)| == |a| && |multiset(b)| == |b|;
    if a != [] {
      assert a[0] in multiset(b) && b[0] in multiset(a);
      var i: nat :| i < |b| && b[i] == a[0];
      var j: nat :| j < |a| && a[j] == b[0];
      SameFirst(a, b, i, j);
      RemoveMatching(a, b, 0);
      assert b[..0] + b[1..] == b[1..];
      TailAscends(a);
      TailAscends(b);
      ShownListIsUnique(a[1..], b[1..]);
    }
  }

  // ---- Totals do not depend on order ----

  lemma {:induction false} VerifiedBytesRemove(members: seq<Member>, i: nat)
    requires i < |members|
    ensures VerifiedBytes(members) == BytesOf(members[i]) + VerifiedBytes(members[..i] + members[i + 1..])
  {
    var n := |members| - 1;
    if i == n {
      assert members[..i] + members[i + 1..] == members[..n];
    } else {
      VerifiedBytesRemove(members[..n], i);
      var less := members[..i] + members[i + 1..];
      assert less[..n - 1] == members[..n][..i] + members[..n][i + 1..];
      assert less[n - 1] == members[n];
    }
  }

  lemma {:induction false} VerifiedBytesPermute(a: seq<Member>, b: seq<Member>)
    requires multiset(a) == multiset(b)
    ensures VerifiedBytes(a) == VerifiedBytes(b)
  {
    hide BytesOf;
    assert |multiset(a)| == |a| && |multiset(b)| == |b|;
    if a != [] {
      assert a[0] in multiset(b);
      var i :| 0 <= i < |b| && b[i] == a[0];
      RemoveMatching(a, b, i);
      VerifiedBytesPermute(a[1..], b[..i] + b[i + 1..]);
      VerifiedBytesRemove(a, 0);
      VerifiedBytesRemove(b, i);
      assert a[..0] + a[1..] == a[1..];
    }
  }

  lemma AllVerifiedPermute(a: seq<Member>, b: seq<Member>)
    requires multiset(a) == multiset(b) && AllVerified(a)
    ensures AllVerified(b) && |a| == |b|
  {
    assert |multiset(a)| == |a| && |multiset(b)| == |b|;
    forall i | 0 <= i < |b| ensures b[i].verification.Verified? {
      assert b[i] in multiset(a);
    }
  }
}
