/** Half-open intervals and the exact-partition sweep of the covering audits. */
module Intervals {
  import opened Prelude

  datatype Interval = Interval(start: nat, end: nat)
  {
    predicate IsEmpty() {
      start == end
    }

    predicate Contains(inner: Interval) {
      start <= inner.start && inner.end <= end
    }

    predicate Has(p: nat) {
      start <= p < end
    }
  }

  type CheckedInterval = i: Interval | i.start <= i.end witness Interval(0, 0)

  function OfRange(range: ByteRange): CheckedInterval {
    Interval(range.offset, range.End())
  }

  datatype PartitionVerdict = Partition | FirstGap | LastGap | Invalid

  /** `validate_ordered_partition`: the caller has already sorted `parts` by start. */
  function ValidateOrderedPartition(outer: CheckedInterval, parts: seq<CheckedInterval>): PartitionVerdict {
    if |parts| == 0 then
      if outer.IsEmpty() then Partition else Invalid
    else if exists i :: 0 <= i < |parts| && (parts[i].IsEmpty() || !outer.Contains(parts[i])) then
      Invalid
    else if parts[0].start != outer.start then
      FirstGap
    else if exists i :: 0 <= i < |parts| - 1 && parts[i].end != parts[i + 1].start then
      Invalid
    else if parts[|parts| - 1].end != outer.end then
      LastGap
    else
      Partition
  }

  /** How many parts own position `p`. */
  function Owners(parts: seq<CheckedInterval>, p: nat): nat {
    if parts == [] then 0 else (if parts[0].Has(p) then 1 else 0) + Owners(parts[1..], p)
  }

  /** The counting oracle: no empty part, every position of `outer` owned once, no other position owned. */
  ghost predicate ExactCover(outer: CheckedInterval, parts: seq<CheckedInterval>) {
    && (forall i :: 0 <= i < |parts| ==> !parts[i].IsEmpty())
    && (forall p: nat :: Owners(parts, p) == if outer.Has(p) then 1 else 0)
  }

  predicate SortedByStart(parts: seq<CheckedInterval>) {
    forall i, j :: 0 <= i < j < |parts| ==> parts[i].start <= parts[j].start
  }

  /** Each part begins where the previous one ended, from `from` up to `to`. */
  predicate Chain(from: nat, parts: seq<CheckedInterval>, to: nat)
    decreases parts
  {
    if parts == [] then from == to
    else parts[0].start == from && !parts[0].IsEmpty() && Chain(parts[0].end, parts[1..], to)
  }

  // ---- Chains own exactly their interval ----

  lemma {:induction false} ChainOwns(from: nat, parts: seq<CheckedInterval>, to: nat, p: nat)
    requires Chain(from, parts, to)
    ensures from <= to
    ensures Owners(parts, p) == if from <= p < to then 1 else 0
    decreases parts
  {
    if parts != [] {
      ChainOwns(parts[0].end, parts[1..], to, p);
    }
  }

  lemma {:induction false} OwnersPositive(parts: seq<CheckedInterval>, p: nat, i: nat)
    requires i < |parts| && parts[i].Has(p)
    ensures Owners(parts, p) >= 1
  {
    if i > 0 { OwnersPositive(parts[1..], p, i - 1); }
  }

  lemma {:induction false} OwnersWitness(parts: seq<CheckedInterval>, p: nat) returns (i: nat)
    requires Owners(parts, p) >= 1
    ensures i < |parts| && parts[i].Has(p)
  {
    if parts[0].Has(p) {
      i := 0;
    } else {
      var j := OwnersWitness(parts[1..], p);
      i := j + 1;
    }
  }

  /** A sorted exact cover can only be a chain. */
  lemma {:induction false} SortedCoverIsChain(outer: CheckedInterval, parts: seq<CheckedInterval>)
    requires SortedByStart(parts) && ExactCover(outer, parts)
    ensures Chain(outer.start, parts, outer.end)
    decreases parts
  {
    if parts == [] {
      assert outer.Has(outer.start) ==> Owners(parts, outer.start) == 1;
    } else {
      var head, tail := parts[0], parts[1..];
      assert head.Has(head.start);
      OwnersPositive(parts, head.start, 0);
      assert outer.Has(head.start);
      var i := OwnersWitness(parts, outer.start);
      assert head.start == outer.start;
      OwnersPositive(parts, head.end - 1, 0);
      assert outer.Has(head.end - 1);
      var rest := Interval(head.end, outer.end);
      forall p: nat
        ensures Owners(tail, p) == if rest.Has(p) then 1 else 0
      {
        assert Owners(parts, p) == (if head.Has(p) then 1 else 0) + Owners(tail, p);
      }
      assert forall j :: 0 <= j < |tail| ==> !tail[j].IsEmpty() by {
        assert forall j :: 0 <= j < |tail| ==> tail[j] == parts[j + 1];
      }
      SortedCoverIsChain(rest, tail);
    }
  }

  // ---- The sweep accepts exactly the chains ----

  lemma {:induction false} ChainFacts(from: nat, parts: seq<CheckedInterval>, to: nat)
    requires Chain(from, parts, to)
    ensures from <= to
    ensures forall i :: 0 <= i < |parts| ==> !parts[i].IsEmpty() && from <= parts[i].start && parts[i].end <= to
    ensures forall i :: 0 <= i < |parts| - 1 ==> parts[i].end == parts[i + 1].start
    ensures parts != [] ==> parts[0].start == from && parts[|parts| - 1].end == to
    ensures SortedByStart(parts)
    decreases parts
  {
    if parts != [] {
      var tail := parts[1..];
      ChainFacts(parts[0].end, tail, to);
      assert forall i :: 1 <= i < |parts| ==> parts[i] == tail[i - 1];
    }
  }

  lemma {:induction false} FactsChain(parts: seq<CheckedInterval>, to: nat)
    requires parts != [] && parts[|parts| - 1].end == to
    requires forall i :: 0 <= i < |parts| ==> !parts[i].IsEmpty()
    requires forall i :: 0 <= i < |parts| - 1 ==> parts[i].end == parts[i + 1].start
    ensures Chain(parts[0].start, parts, to)
  {
    if |parts| > 1 {
      assert forall i :: 0 <= i < |parts| - 2 ==> parts[1..][i].end == parts[1..][i + 1].start;
      FactsChain(parts[1..], to);
    }
  }

  lemma SweepAcceptsChains(outer: CheckedInterval, parts: seq<CheckedInterval>)
    ensures ValidateOrderedPartition(outer, parts) == Partition <==> Chain(outer.start, parts, outer.end)
  {
    if Chain(outer.start, parts, outer.end) {
      ChainFacts(outer.start, parts, outer.end);
    }
    if ValidateOrderedPartition(outer, parts) == Partition && parts != [] {
      FactsChain(parts, outer.end);
    }
  }

  // ---- Owners do not depend on the order of the parts ----

  lemma {:induction false} OwnersRemove(parts: seq<CheckedInterval>, i: nat, p: nat)
    requires i < |parts|
    ensures Owners(parts, p) == (if parts[i].Has(p) then 1 else 0) + Owners(parts[..i] + parts[i + 1..], p)
  {
    if i == 0 {
      assert parts[..0] + parts[1..] == parts[1..];
    } else {
      OwnersRemove(parts[1..], i - 1, p);
      var less := parts[..i] + parts[i + 1..];
      assert less[1..] == parts[1..][..i - 1] + parts[1..][i..];
    }
  }

  lemma {:induction false} OwnersPermute(a: seq<CheckedInterval>, b: seq<CheckedInterval>, p: nat)
    requires multiset(a) == multiset(b)
    ensures Owners(a, p) == Owners(b, p)
  {
    if a == [] {
      assert |multiset(a)| == |a| && |multiset(b)| == |b|;
    } else {
      assert a[0] in multiset(b);
      var i :| 0 <= i < |b| && b[i] == a[0];
      OwnersRemove(b, i, p);
      var less := b[..i] + b[i + 1..];
      RemoveMatching(a, b, i);
      OwnersPermute(a[1..], less, p);
    }
  }

  lemma ExactCoverPermute(outer: CheckedInterval, a: seq<CheckedInterval>, b: seq<CheckedInterval>)
    requires multiset(a) == multiset(b)
    ensures ExactCover(outer, a) <==> ExactCover(outer, b)
  {
    forall p: nat ensures Owners(a, p) == Owners(b, p) { OwnersPermute(a, b, p); }
    forall i | 0 <= i < |a| ensures a[i] in b { assert a[i] in multiset(b); }
    forall i | 0 <= i < |b| ensures b[i] in a { assert b[i] in multiset(a); }
  }

  /**
   Sort-then-sweep equals the counting oracle, for every outer interval, every list of parts
   and every order an unstable sort by start may produce.
   */
  lemma SortThenSweep(outer: CheckedInterval, parts: seq<CheckedInterval>, ordered: seq<CheckedInterval>)
    requires multiset(ordered) == multiset(parts) && SortedByStart(ordered)
    ensures ValidateOrderedPartition(outer, ordered) == Partition <==> ExactCover(outer, parts)
  {
    SweepAcceptsChains(outer, ordered);
    ExactCoverPermute(outer, parts, ordered);
    if Chain(outer.start, ordered, outer.end) {
      ChainFacts(outer.start, ordered, outer.end);
      forall p: nat ensures Owners(ordered, p) == if outer.Has(p) then 1 else 0 {
        ChainOwns(outer.start, ordered, outer.end, p);
      }
    }
    if ExactCover(outer, ordered) {
      SortedCoverIsChain(outer, ordered);
    }
  }

  // ---- sort_unstable_by_key(start) ----

  /** Inserts `x` in front of the first part that does not start before it. */
  function InsertByStart(x: CheckedInterval, sorted: seq<CheckedInterval>): (r: seq<CheckedInterval>)
    ensures multiset(r) == multiset{x} + multiset(sorted)
  {
    if sorted == [] then [x]
    else if x.start <= sorted[0].start then [x] + sorted
    else
      assert sorted == [sorted[0]] + sorted[1..];
      [sorted[0]] + InsertByStart(x, sorted[1..])
  }

  predicate NoneBefore(parts: seq<CheckedInterval>, low: nat) {
    forall i :: 0 <= i < |parts| ==> low <= parts[i].start
  }

  lemma {:induction false} InsertedNotBefore(x: CheckedInterval, sorted: seq<CheckedInterval>, low: nat)
    requires NoneBefore(sorted, low) && low <= x.start
    ensures NoneBefore(InsertByStart(x, sorted), low)
  {
    if sorted != [] && sorted[0].start < x.start {
      InsertedNotBefore(x, sorted[1..], low);
    }
  }

  lemma {:induction false} InsertKeepsSorted(x: CheckedInterval, sorted: seq<CheckedInterval>)
    requires SortedByStart(sorted)
    ensures SortedByStart(InsertByStart(x, sorted))
  {
    if sorted != [] && sorted[0].start < x.start {
      InsertKeepsSorted(x, sorted[1..]);
      InsertedNotBefore(x, sorted[1..], sorted[0].start);
    }
  }

  function SortByStart(parts: seq<CheckedInterval>): (r: seq<CheckedInterval>)
    ensures multiset(r) == multiset(parts)
    ensures SortedByStart(r)
  {
    if parts == [] then []
    else
      assert parts == [parts[0]] + parts[1..];
      var rest := SortByStart(parts[1..]);
      InsertKeepsSorted(parts[0], rest);
      InsertByStart(parts[0], rest)
  }

  // ---- A cover is told by where its parts start ----

  predicate StartsAt(parts: seq<CheckedInterval>, p: nat) {
    exists i :: 0 <= i < |parts| && parts[i].start == p
  }

  ghost predicate SameStarts(a: seq<CheckedInterval>, b: seq<CheckedInterval>) {
    forall p: nat :: StartsAt(a, p) <==> StartsAt(b, p)
  }

  /** No part of a chain starts inside its first part. */
  lemma StartsAfterFirst(from: nat, parts: seq<CheckedInterval>, to: nat, p: nat)
    requires Chain(from, parts, to) && parts != [] && StartsAt(parts, p)
    ensures p == from || (p >= parts[0].end && StartsAt(parts[1..], p))
  {
    ChainFacts(from, parts, to);
    ChainFacts(parts[0].end, parts[1..], to);
    var i :| 0 <= i < |parts| && parts[i].start == p;
    if i > 0 { assert parts[1..][i - 1] == parts[i]; }
  }

  /** The first part does not end later than that of a chain with the same starts. */
  lemma FirstEndsNoLater(from: nat, a: seq<CheckedInterval>, b: seq<CheckedInterval>, to: nat)
    requires Chain(from, a, to) && Chain(from, b, to) && a != [] && b != [] && SameStarts(a, b)
    ensures a[0].end >= b[0].end
  {
    ChainFacts(from, a, to);
    ChainFacts(from, b, to);
    if a[0].end < b[0].end {
      assert a[1].start == a[0].end;
      assert StartsAt(a, a[0].end);
      StartsAfterFirst(from, b, to, a[0].end);
    }
  }

  lemma TailStarts(from: nat, a: seq<CheckedInterval>, b: seq<CheckedInterval>, to: nat, p: nat)
    requires Chain(from, a, to) && Chain(from, b, to) && a != [] && b != [] && SameStarts(a, b)
    requires StartsAt(a[1..], p)
    ensures StartsAt(b[1..], p)
  {
    ChainFacts(a[0].end, a[1..], to);
    var i :| 0 <= i < |a[1..]| && a[1..][i].start == p;
    assert a[i + 1].start == p && p > from;
    assert StartsAt(a, p);
    StartsAfterFirst(from, b, to, p);
  }

  lemma {:induction false} ChainIsItsStarts(from: nat, a: seq<CheckedInterval>, b: seq<CheckedInterval>, to: nat)
    requires Chain(from, a, to) && Chain(from, b, to) && SameStarts(a, b)
    ensures a == b
    decreases a
  {
    if a != [] { assert StartsAt(a, a[0].start); }
    if b != [] { assert StartsAt(b, b[0].start); }
    if a != [] && b != [] {
      FirstEndsNoLater(from, a, b, to);
      FirstEndsNoLater(from, b, a, to);
      assert a[0] == b[0];
      forall p: nat ensures StartsAt(a[1..], p) <==> StartsAt(b[1..], p) {
        if StartsAt(a[1..], p) { TailStarts(from, a, b, to, p); }
        if StartsAt(b[1..], p) { TailStarts(from, b, a, to, p); }
      }
      ChainIsItsStarts(a[0].end, a[1..], b[1..], to);
      assert a == [a[0]] + a[1..] && b == [b[0]] + b[1..];
    }
  }

  lemma StartsPermute(a: seq<CheckedInterval>, b: seq<CheckedInterval>)
    requires multiset(a) == multiset(b)
    ensures SameStarts(a, b)
  {
    forall i | 0 <= i < |a| ensures a[i] in b { assert a[i] in multiset(b); }
    forall i | 0 <= i < |b| ensures b[i] in a { assert b[i] in multiset(a); }
  }

  /** Two exact covers of one interval have the same parts exactly when these start at the same positions. */
  lemma CoverIsItsStarts(outer: CheckedInterval, a: seq<CheckedInterval>, b: seq<CheckedInterval>)
    requires ExactCover(outer, a) && ExactCover(outer, b)
    ensures multiset(a) == multiset(b) <==> SameStarts(a, b)
  {
    if multiset(a) == multiset(b) { StartsPermute(a, b); }
    if SameStarts(a, b) {
      var left, right := SortByStart(a), SortByStart(b);
      StartsPermute(a, left);
      StartsPermute(b, right);
      ExactCoverPermute(outer, a, left);
      ExactCoverPermute(outer, b, right);
      SortedCoverIsChain(outer, left);
      SortedCoverIsChain(outer, right);
      ChainIsItsStarts(outer.start, left, right, outer.end);
    }
  }
}
