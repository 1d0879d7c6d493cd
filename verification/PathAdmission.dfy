/** Incremental admission of TAR member paths against everything admitted before. */
module PathAdmission {
  import opened Prelude
  import opened Lex
  import opened Paths

  const DOT: byte := 0x2E
  const DOT_SLASH: seq<byte> := [DOT, SLASH]

  datatype ErrorCode = PathConflict | PathCaseFold | PathInvalidChar | JailRejected

  /** The components of a jailed name. */
  datatype JailedName = JailedName(components: seq<Path>)

  /** The Unicode name rules of the profile, which live elsewhere: jail, portability and case fold. */
  datatype NameRules = NameRules(
    jail: (Path, nat) -> Option<JailedName>,
    isPortable: JailedName -> bool,
    caseFold: Path -> Path)

  // ---- prepare_tar_member_name ----

  datatype PreparedName = PreparedName(name: Path, stripped: bool, archiveRoot: bool)

  /** The name without one trailing slash, for a directory that has it. */
  function StripSlash(name: Path, kind: Kind): Path {
    if kind.Directory? && name != [] && name[|name| - 1] == SLASH then name[..|name| - 1] else name
  }

  predicate IsDots(s: seq<byte>, n: nat) {
    if n == 0 then s == [] else DOT_SLASH <= s && IsDots(s[2..], n - 1)
  }

  /** `prepare_tar_member_name`: the name is what is left after every leading `./`. */
  method PrepareName(name: Path, kind: Kind) returns (prepared: PreparedName, ghost rest: Path)
    ensures exists n: nat, dots :: StripSlash(name, kind) == dots + rest && IsDots(dots, n)
    ensures !(DOT_SLASH <= rest)
    ensures prepared.stripped <==> StripSlash(name, kind) != name
    ensures prepared.archiveRoot <==> kind.Directory? && (rest == [] || rest == [DOT])
    ensures prepared.name == if prepared.archiveRoot then [] else rest
  {
    var stripped := StripSlash(name, kind);
    var left := stripped;
    ghost var dots: seq<byte>, n: nat := [], 0;
    while DOT_SLASH <= left
      invariant stripped == dots + left && IsDots(dots, n)
      decreases |left|
    {
      DotsAppend(dots, n);
      dots, n := dots + DOT_SLASH, n + 1;
      assert left == DOT_SLASH + left[2..];
      left := left[2..];
    }
    rest := left;
    if kind.Directory? && (left == [] || left == [DOT]) {
      return PreparedName([], stripped != name, true), rest;
    }
    return PreparedName(left, stripped != name, false), rest;
  }

  lemma {:induction false} DotsAppend(dots: seq<byte>, n: nat)
    requires IsDots(dots, n)
    ensures IsDots(dots + DOT_SLASH, n + 1)
  {
    if n == 0 {
      assert (dots + DOT_SLASH)[2..] == [];
    } else {
      DotsAppend(dots[2..], n - 1);
      assert (dots + DOT_SLASH)[2..] == dots[2..] + DOT_SLASH;
    }
  }

  /** What is left of a name after its leading `./` components. */
  function StripDots(s: Path): Path
    decreases |s|
  {
    if DOT_SLASH <= s then StripDots(s[2..]) else s
  }

  /** There is only one way to strip every leading `./`. */
  lemma {:induction false} StripDotsIsUnique(dots: seq<byte>, n: nat, rest: Path)
    requires IsDots(dots, n) && !(DOT_SLASH <= rest)
    ensures StripDots(dots + rest) == rest
    decreases n
  {
    if n == 0 {
      assert dots + rest == rest;
    } else {
      StripDotsIsUnique(dots[2..], n - 1, rest);
      assert (dots + rest)[2..] == dots[2..] + rest;
    }
  }

  // ---- What a member asks for ----

  datatype Request = Request(name: Path, kind: Kind)

  /** The canonical path and its fold, or why the name alone is refused. */
  datatype Plan = Refused(code: ErrorCode) | Planned(components: seq<Path>, path: Path, fold: Path)

  function PlanOf(rules: NameRules, maxDepth: nat, r: Request): Plan {
    var rest := StripDots(StripSlash(r.name, r.kind));
    if r.kind.Directory? && (rest == [] || rest == [DOT]) then Planned([], [], [])
    else
      var jailed := rules.jail(rest, maxDepth);
      if jailed.None? then Refused(JailRejected)
      else if !rules.isPortable(jailed.value) then Refused(PathInvalidChar)
      else
        var path := Join(jailed.value.components, SLASH);
        Planned(jailed.value.components, path, rules.caseFold(path))
  }

  // ---- The seen maps ----

  type Seen = map<Path, Kind>

  /** No admitted file is above `e`, and if `e` is a file no admitted path is below it. */
  predicate NoConflict(seen: Seen, e: Entry) {
    && (forall p :: p in seen && seen[p].File? ==> !IsAncestor(p, e.path))
    && (e.kind.File? ==> forall p :: p in seen ==> !IsAncestor(e.path, p))
  }

  /** `range(bound..).next()`: the least key that is not less than the bound. */
  method FirstAtOrAfter(seen: Seen, bound: Path) returns (first: Option<Path>)
    ensures first.Some? ==> first.value in seen && !Less(first.value, bound)
                            && forall p :: p in seen && !Less(p, bound) ==> !Less(p, first.value)
    ensures first.None? ==> forall p :: p in seen ==> Less(p, bound)
  {
    hide Less;
    first := None;
    var rest := seen.Keys;
    while rest != {}
      invariant rest <= seen.Keys
      invariant first.Some? ==> first.value in seen && !Less(first.value, bound)
      invariant first.Some? ==> forall p :: p in seen.Keys - rest && !Less(p, bound) ==> !Less(p, first.value)
      invariant first.None? ==> forall p :: p in seen.Keys - rest ==> Less(p, bound)
      decreases rest
    {
      var key :| key in rest;
      rest := rest - {key};
      if !Less(key, bound) && (first.None? || Less(key, first.value)) {
        LessIrreflexive(key);
        forall p | p in seen.Keys - rest && !Less(p, bound) ensures !Less(p, key) {
          if p != key && Less(p, key) && first.Some? {
            LessTransitive(p, key, first.value);
          }
        }
        first := Some(key);
      }
    }
  }

  /** The range probe finds a key with the prefix exactly when there is one. */
  lemma RangeProbe(seen: Seen, prefix: Path, first: Option<Path>)
    requires first.Some? ==> first.value in seen && !Less(first.value, prefix)
                             && forall p :: p in seen && !Less(p, prefix) ==> !Less(p, first.value)
    requires first.None? ==> forall p :: p in seen ==> Less(p, prefix)
    ensures (first.Some? && prefix <= first.value) <==> exists p :: p in seen && prefix <= p
  {
    hide Less;
    forall p | p in seen && prefix <= p
      ensures first.Some? && prefix <= first.value
    {
      LessIrreflexive(prefix);
      if p != prefix {
        PrefixIsLess(prefix, p);
        LessAsymmetric(prefix, p);
      }
      BetweenSharesPrefix(prefix, first.value, p);
    }
  }

  lemma AncestorIsPrefix(p: Path, q: Path)
    ensures IsAncestor(p, q) <==> p + [SLASH] <= q
  {
    if p + [SLASH] <= q {
      assert q[..|p| + 1] == p + [SLASH];
      assert q[..|p|] == p && q[|p|] == (p + [SLASH])[|p|];
    }
    if IsAncestor(p, q) {
      assert q[..|p| + 1] == q[..|p|] + [q[|p|]];
    }
  }

  /** `path_conflict`. */
  method FindConflict(seen: Seen, e: Entry) returns (conflict: Option<Path>)
    ensures conflict.None? <==> NoConflict(seen, e)
    ensures conflict.Some? ==> conflict.value in seen
                               && !Compatible(Entry(conflict.value, seen[conflict.value]), e)
  {
    for index := 0 to |e.path|
      invariant forall p :: p in seen && seen[p].File? && |p| < index ==> !IsAncestor(p, e.path)
    {
      if e.path[index] == SLASH {
        var ancestor := e.path[..index];
        if ancestor in seen && seen[ancestor].File? {
          assert IsAncestor(ancestor, e.path);
          return Some(ancestor);
        }
      }
    }
    if e.kind.File? {
      var prefix := e.path + [SLASH];
      var candidate := FirstAtOrAfter(seen, prefix);
      RangeProbe(seen, prefix, candidate);
      forall p | p in seen ensures IsAncestor(e.path, p) <==> prefix <= p { AncestorIsPrefix(e.path, p); }
      if candidate.Some? && prefix <= candidate.value {
        return candidate;
      }
    }
    return None;
  }

  /** Both maps, as `admit_tar_path` extends them. */
  class AdmittedPaths {
    var dest: Seen
    var fold: Seen

    constructor ()
      ensures dest == map[] && fold == map[]
    {
      dest, fold := map[], map[];
    }

    /** Whether a planned member fits what has been admitted so far, in path space and in fold space. */
    predicate Fits(plan: Plan, kind: Kind)
      reads this
      requires plan.Planned?
    {
      && plan.path !in dest && plan.fold !in fold
      && NoConflict(dest, Entry(plan.path, kind)) && NoConflict(fold, Entry(plan.fold, kind))
    }

    /** `admit_tar_path`: a refused member changes neither map. */
    method Admit(rules: NameRules, maxDepth: nat, r: Request) returns (result: Result<seq<Path>, ErrorCode>)
      modifies this
      ensures var plan := PlanOf(rules, maxDepth, r);
              && (result.Ok? <==> plan.Planned? && old(Fits(plan, r.kind)))
              && (result.Ok? ==> && result.value == plan.components
                                 && dest == old(dest)[plan.path := r.kind]
                                 && fold == old(fold)[plan.fold := r.kind])
              && (result.Err? ==> dest == old(dest) && fold == old(fold))
              && (plan.Refused? ==> result == Err(plan.code))
              && (plan.Planned? && plan.path in old(dest) ==> result == Err(PathConflict))
    {
      var prepared, rest := PrepareName(r.name, r.kind);
      assert rest == StripDots(StripSlash(r.name, r.kind)) by {
        var n: nat, dots :| StripSlash(r.name, r.kind) == dots + rest && IsDots(dots, n);
        StripDotsIsUnique(dots, n, rest);
      }
      if prepared.archiveRoot {
        if [] in dest {
          return Err(PathConflict);
        }
        if [] in fold {
          return Err(PathCaseFold);
        }
        dest, fold := dest[[] := Directory], fold[[] := Directory];
        return Ok([]);
      }
      var jailed := rules.jail(prepared.name, maxDepth);
      if jailed.None? {
        return Err(JailRejected);
      }
      if !rules.isPortable(jailed.value) {
        return Err(PathInvalidChar);
      }
      var path := Join(jailed.value.components, SLASH);
      var folded := rules.caseFold(path);
      if path in dest {
        return Err(PathConflict);
      }
      if folded in fold {
        return Err(PathCaseFold);
      }
      var conflict := FindConflict(dest, Entry(path, r.kind));
      if conflict.Some? {
        return Err(PathConflict);
      }
      conflict := FindConflict(fold, Entry(folded, r.kind));
      if conflict.Some? {
        return Err(PathCaseFold);
      }
      dest, fold := dest[path := r.kind], fold[folded := r.kind];
      return Ok(jailed.value.components);
    }
  }

  // ---- A whole run ----

  predicate AllPlanned(rules: NameRules, maxDepth: nat, requests: seq<Request>) {
    forall i :: 0 <= i < |requests| ==> PlanOf(rules, maxDepth, requests[i]).Planned?
  }

  function DestEntry(rules: NameRules, maxDepth: nat, r: Request): Entry {
    var plan := PlanOf(rules, maxDepth, r);
    Entry(if plan.Planned? then plan.path else [], r.kind)
  }

  function FoldEntry(rules: NameRules, maxDepth: nat, r: Request): Entry {
    var plan := PlanOf(rules, maxDepth, r);
    Entry(if plan.Planned? then plan.fold else [], r.kind)
  }

  function DestEntries(rules: NameRules, maxDepth: nat, requests: seq<Request>): seq<Entry> {
    seq(|requests|, i requires 0 <= i < |requests| => DestEntry(rules, maxDepth, requests[i]))
  }

  function FoldEntries(rules: NameRules, maxDepth: nat, requests: seq<Request>): seq<Entry> {
    seq(|requests|, i requires 0 <= i < |requests| => FoldEntry(rules, maxDepth, requests[i]))
  }

  /** Members are individually valid and pairwise compatible in path space and in fold space. */
  predicate Admissible(rules: NameRules, maxDepth: nat, requests: seq<Request>) {
    && AllPlanned(rules, maxDepth, requests)
    && PairwiseCompatible(DestEntries(rules, maxDepth, requests))
    && PairwiseCompatible(FoldEntries(rules, maxDepth, requests))
  }

  /** The map that holds exactly these entries. */
  predicate Records(seen: Seen, entries: seq<Entry>) {
    && (forall p :: p in seen ==> exists i :: 0 <= i < |entries| && entries[i] == Entry(p, seen[p]))
    && (forall i :: 0 <= i < |entries| ==> entries[i].path in seen && seen[entries[i].path] == entries[i].kind)
  }

  /** The incremental tests say exactly that the new entry is compatible with every recorded one. */
  lemma FitsIsCompatible(seen: Seen, entries: seq<Entry>, e: Entry)
    requires Records(seen, entries)
    ensures e.path !in seen && NoConflict(seen, e) <==> CompatibleWithAll(e, entries)
  {
    if CompatibleWithAll(e, entries) {
      forall p | p in seen ensures Compatible(e, Entry(p, seen[p])) {
        var i :| 0 <= i < |entries| && entries[i] == Entry(p, seen[p]);
      }
    }
  }

  lemma RecordsAppend(seen: Seen, entries: seq<Entry>, e: Entry)
    requires Records(seen, entries) && e.path !in seen
    ensures Records(seen[e.path := e.kind], entries + [e])
  {
    var all, now := entries + [e], seen[e.path := e.kind];
    forall p | p in now
      ensures exists i :: 0 <= i < |all| && all[i] == Entry(p, now[p])
    {
      if p in seen {
        var i :| 0 <= i < |entries| && entries[i] == Entry(p, seen[p]);
        assert all[i] == Entry(p, seen[p]);
      } else {
        assert all[|entries|] == e;
      }
    }
  }

  lemma PairwiseAppend(entries: seq<Entry>, e: Entry)
    ensures PairwiseCompatible(entries + [e]) <==> PairwiseCompatible(entries) && CompatibleWithAll(e, entries)
  {
    PairwiseRemove(entries + [e], |entries|);
    assert (entries + [e])[..|entries|] + (entries + [e])[|entries| + 1..] == entries;
  }

  lemma PairwisePrefix(entries: seq<Entry>, k: nat)
    requires k <= |entries| && PairwiseCompatible(entries)
    ensures PairwiseCompatible(entries[..k])
  {
  }

  /** Admitting a whole member list, one `admit_tar_path` call after another. */
  method AdmitAll(rules: NameRules, maxDepth: nat, requests: seq<Request>) returns (ok: bool)
    ensures ok <==> Admissible(rules, maxDepth, requests)
  {
    hide NoConflict, Compatible, PairwiseCompatible, CompatibleWithAll, Records, PlanOf;
    var paths := new AdmittedPaths();
    ghost var dests, folds := DestEntries(rules, maxDepth, requests), FoldEntries(rules, maxDepth, requests);
    NothingRecorded(paths.dest, dests);
    NothingRecorded(paths.fold, folds);
    for k := 0 to |requests|
      invariant Records(paths.dest, dests[..k]) && Records(paths.fold, folds[..k])
      invariant PairwiseCompatible(dests[..k]) && PairwiseCompatible(folds[..k])
      invariant forall i :: 0 <= i < k ==> PlanOf(rules, maxDepth, requests[i]).Planned?
    {
      var r := requests[k];
      ghost var d, f := DestEntry(rules, maxDepth, r), FoldEntry(rules, maxDepth, r);
      assert dests[..k + 1] == dests[..k] + [d] && folds[..k + 1] == folds[..k] + [f];
      FitsIsCompatible(paths.dest, dests[..k], d);
      FitsIsCompatible(paths.fold, folds[..k], f);
      PairwiseAppend(dests[..k], d);
      PairwiseAppend(folds[..k], f);
      if paths.dest.Keys !! {d.path} { RecordsAppend(paths.dest, dests[..k], d); }
      if paths.fold.Keys !! {f.path} { RecordsAppend(paths.fold, folds[..k], f); }
      var admitted := paths.Admit(rules, maxDepth, r);
      if admitted.Err? {
        if PairwiseCompatible(dests) { PairwisePrefix(dests, k + 1); }
        if PairwiseCompatible(folds) { PairwisePrefix(folds, k + 1); }
        return false;
      }
    }
    assert dests[..|requests|] == dests && folds[..|requests|] == folds;
    return true;
  }

  lemma NothingRecorded(seen: Seen, entries: seq<Entry>)
    requires seen == map[]
    ensures Records(seen, entries[..0]) && PairwiseCompatible(entries[..0])
  {
  }

  // ---- Order independence, and the protocol's view of the same list ----

  lemma DestSplit(rules: NameRules, maxDepth: nat, a: seq<Request>, i: nat)
    requires i < |a|
    ensures multiset(DestEntries(rules, maxDepth, a))
         == multiset{DestEntry(rules, maxDepth, a[i])} + multiset(DestEntries(rules, maxDepth, a[..i] + a[i + 1..]))
  {
    hide DestEntry;
    var front, back := DestEntries(rules, maxDepth, a[..i]), DestEntries(rules, maxDepth, a[i + 1..]);
    assert DestEntries(rules, maxDepth, a) == front + [DestEntry(rules, maxDepth, a[i])] + back;
    assert DestEntries(rules, maxDepth, a[..i] + a[i + 1..]) == front + back;
  }

  lemma FoldSplit(rules: NameRules, maxDepth: nat, a: seq<Request>, i: nat)
    requires i < |a|
    ensures multiset(FoldEntries(rules, maxDepth, a))
         == multiset{FoldEntry(rules, maxDepth, a[i])} + multiset(FoldEntries(rules, maxDepth, a[..i] + a[i + 1..]))
  {
    hide FoldEntry;
    var front, back := FoldEntries(rules, maxDepth, a[..i]), FoldEntries(rules, maxDepth, a[i + 1..]);
    assert FoldEntries(rules, maxDepth, a) == front + [FoldEntry(rules, maxDepth, a[i])] + back;
    assert FoldEntries(rules, maxDepth, a[..i] + a[i + 1..]) == front + back;
  }

  lemma {:induction false} EntriesPermute(rules: NameRules, maxDepth: nat, a: seq<Request>, b: seq<Request>)
    requires multiset(a) == multiset(b)
    ensures multiset(DestEntries(rules, maxDepth, a)) == multiset(DestEntries(rules, maxDepth, b))
    ensures multiset(FoldEntries(rules, maxDepth, a)) == multiset(FoldEntries(rules, maxDepth, b))
    decreases |a|
  {
    hide *;
    assert |multiset(a)| == |a| && |multiset(b)| == |b|;
    if a == [] {
      assert b == [];
    } else {
      assert a[0] in multiset(b);
      var i :| 0 <= i < |b| && b[i] == a[0];
      RemoveMatching(a, b, i);
      EntriesPermute(rules, maxDepth, a[1..], b[..i] + b[i + 1..]);
      EntriesRestored(rules, maxDepth, a, b, i);
    }
  }

  lemma EntriesRestored(rules: NameRules, maxDepth: nat, a: seq<Request>, b: seq<Request>, i: nat)
    requires a != [] && i < |b| && b[i] == a[0]
    requires multiset(DestEntries(rules, maxDepth, a[1..])) ==
             multiset(DestEntries(rules, maxDepth, b[..i] + b[i + 1..]))
    requires multiset(FoldEntries(rules, maxDepth, a[1..])) ==
             multiset(FoldEntries(rules, maxDepth, b[..i] + b[i + 1..]))
    ensures multiset(DestEntries(rules, maxDepth, a)) == multiset(DestEntries(rules, maxDepth, b))
    ensures multiset(FoldEntries(rules, maxDepth, a)) == multiset(FoldEntries(rules, maxDepth, b))
  {
    hide *;
    assert a[..0] + a[1..] == a[1..];
    DestSplit(rules, maxDepth, a, 0);
    DestSplit(rules, maxDepth, b, i);
    FoldSplit(rules, maxDepth, a, 0);
    FoldSplit(rules, maxDepth, b, i);
  }

  /** Whether a member list is admitted does not depend on the order of its members. */
  lemma AdmissionIsOrderIndependent(rules: NameRules, maxDepth: nat, a: seq<Request>, b: seq<Request>)
    requires multiset(a) == multiset(b)
    ensures Admissible(rules, maxDepth, a) <==> Admissible(rules, maxDepth, b)
  {
    hide PlanOf, PairwiseCompatible;
    EntriesPermute(rules, maxDepth, a, b);
    PairwisePermute(DestEntries(rules, maxDepth, a), DestEntries(rules, maxDepth, b));
    PairwisePermute(FoldEntries(rules, maxDepth, a), FoldEntries(rules, maxDepth, b));
    forall i | 0 <= i < |a| ensures a[i] in b { assert a[i] in multiset(a); }
    forall i | 0 <= i < |b| ensures b[i] in a { assert b[i] in multiset(b); }
  }

  /**
   The path half of admission and the protocol agree: a list is pairwise compatible exactly when its sorted
   form is strictly ordered and passes the binary-search topology check.
   */
  lemma AdmissionMatchesProtocolTopology(entries: seq<Entry>, sorted: seq<Entry>)
    requires multiset(sorted) == multiset(entries)
    requires forall i, j :: 0 <= i < j < |sorted| ==> !Less(sorted[j].path, sorted[i].path)
    ensures PairwiseCompatible(entries) <==> Ordered(sorted) && NoFileAbove(sorted)
  {
    hide Less, PairwiseCompatible, NoFileAbove;
    PairwisePermute(entries, sorted);
    if PairwiseCompatible(entries) {
      forall i, j | 0 <= i < j < |sorted| ensures Less(sorted[i].path, sorted[j].path) {
        CompatiblePair(sorted, i, j);
        LessTotal(sorted[i].path, sorted[j].path);
      }
    }
    if Ordered(sorted) {
      OrderedTopology(sorted);
    }
  }

  lemma CompatiblePair(entries: seq<Entry>, i: nat, j: nat)
    requires PairwiseCompatible(entries) && i < j < |entries|
    ensures entries[i].path != entries[j].path
  {
    assert Compatible(entries[i], entries[j]);
  }
}
