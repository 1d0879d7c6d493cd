/** One run of `execute_ready_archive`, every way it can end, and what holds however it ends. */
module ExecutionRun {
  import opened Prelude
  import opened Quota
  import opened Execution
  import opened MembersView

  /** What a run starts from: its surroundings, the request, the planned members and what is known already. */
  datatype Setting = Setting(
    world: World,
    request: Request,
    plan: seq<Member>,
    earlier: seq<Finding>,
    initial: Materialization)

  // ---- What the members come to ----

  function QuotaFinding(e: QuotaError): ErrorFinding {
    Finding(Error, if e.Overflow? then QuotaOverflow else QuotaTotal)
  }

  /** The running total after the next member, or the finding that stops the run there. */
  function Step(x: Setting, i: nat, used: nat): (r: Result<nat, ErrorFinding>)
    requires i < |x.plan| && used <= x.request.maxTotalBytes
    ensures r.Ok? ==> used <= r.value <= x.request.maxTotalBytes
  {
    if x.plan[i].kind.Directory? then
      if x.request.dest && x.world.createDirectory(i).Err? then Err(x.world.createDirectory(i).error) else Ok(used)
    else if x.world.openPayload(i).Err? then Err(x.world.openPayload(i).error)
    else
      var processed := x.world.process(i, x.request.maxTotalBytes - used);
      if processed.Err? then Err(processed.error)
      else
        var next := Transition(used, x.request.maxTotalBytes, processed.value);
        if next.Err? then Err(QuotaFinding(next.error)) else Ok(used + processed.value)
  }

  /** What a member that stops the run left in the stage: a whole file if only its accounting failed. */
  function LeftBehind(x: Setting, i: nat, used: nat): seq<Event>
    requires i < |x.plan| && used <= x.request.maxTotalBytes
  {
    if x.plan[i].kind.File? && x.world.openPayload(i).Ok? && x.world.process(i, x.request.maxTotalBytes - used).Ok?
    then [FileWritten(i)] else []
  }

  /** The running total after the first `k` members, or the first finding that stops the run. */
  function Account(x: Setting, k: nat): (r: Result<nat, ErrorFinding>)
    requires k <= |x.plan|
    ensures r.Ok? ==> r.value <= x.request.maxTotalBytes
  {
    if k == 0 then Ok(0)
    else
      var before := Account(x, k - 1);
      if before.Err? then before else Step(x, k - 1, before.value)
  }

  lemma {:induction false} AccountIsMonotone(x: Setting, j: nat, k: nat)
    requires j <= k <= |x.plan| && Account(x, k).Ok?
    ensures Account(x, j).Ok?
  {
    if j < k { AccountIsMonotone(x, j, k - 1); }
  }

  // ---- How a run can end ----

  datatype Run = Run(outcome: Outcome, members: seq<Member>, log: seq<Event>, accounted: nat)

  /** The first `k` members are verified, the others are as planned except that the next may have failed. */
  predicate VerifiedPrefix(plan: seq<Member>, members: seq<Member>, k: nat) {
    && k <= |plan| && SamePlan(plan, members)
    && AllVerified(members[..k])
    && forall i :: k < i < |plan| ==> members[i] == plan[i]
  }

  /** Findings, report and log after cleaning up a stage in which `front` happened, if there is a stage. */
  predicate CleanedUp(x: Setting, run: Run, finding: ErrorFinding, front: seq<Event>, outcome: StageOutcome) {
    if x.request.dest then
      && run.outcome.findings == x.earlier + [finding] + AbortFindings(x.world, x.request.retentionPath)
      && run.outcome.materialization == Report(outcome, AbortCleanup(x.world))
      && run.log == front + AbortEvents(x.world)
    else
      && run.outcome.findings == x.earlier + [finding]
      && run.outcome.materialization == x.initial
      && run.log == []
  }

  predicate NotReady(x: Setting, run: Run) {
    && x.world.ready.Err?
    && run.members == x.plan && run.log == [] && run.accounted == 0
    && run.outcome.membersView == [] && run.outcome.verdict.Rejected?
    && run.outcome.axes.verification.StructureOnly? && run.outcome.axes.effect.NotRequested?
    && run.outcome.findings == x.earlier + [x.world.ready.error]
    && run.outcome.materialization == x.initial
  }

  /** No stage: it could not be created, or its retention record could not be written. */
  predicate SetupStopped(x: Setting, run: Run) {
    && x.request.dest && run.members == x.plan && run.accounted == 0
    && run.outcome.membersView == [] && run.outcome.verdict.Rejected?
    && run.outcome.axes.verification.StructureOnly? && run.outcome.axes.effect.Failed?
    && if x.world.createStage.Err? then
         && run.outcome.findings == x.earlier + [x.world.createStage.error.first] + x.world.createStage.error.more
         && run.outcome.materialization == SetupFailed && run.log == []
       else
         && x.request.retentionPath && x.world.persistRetention.Err?
         && run.outcome.findings == x.earlier + [x.world.persistRetention.error] + AbortFindings(x.world, false)
         && run.outcome.materialization == Report(Aborted, AbortCleanup(x.world))
         && run.log == [Opened] + AbortEvents(x.world)
  }

  /** What every stop of the verification has in common; `k` members are verified. */
  predicate Stopped(x: Setting, run: Run, k: nat) {
    && VerifiedPrefix(x.plan, run.members, k)
    && run.outcome.membersView == run.members[..k]
    && run.outcome.axes.verification == Partial(k, |x.plan| - k)
    && run.outcome.axes.effect == (if x.request.dest then Failed else NotRequested)
    && run.outcome.verdict.Rejected?
    && run.accounted == VerifiedBytes(run.members[..k]) <= x.request.maxTotalBytes
    && Account(x, k) == Ok(run.accounted)
  }

  /** The events of a stage with its first `k` members made. */
  function Front(x: Setting, k: nat): seq<Event>
    requires k <= |x.plan|
  {
    Opening(x.request) + MadeEvents(x.plan, k)
  }

  /** Stopped before the end by member `k`, over the finding that the accounting tells. */
  predicate StoppedEarly(x: Setting, run: Run, k: nat) {
    && k < |x.plan| && Stopped(x, run, k)
    && Account(x, k + 1).Err?
    && var finding := Account(x, k + 1).error;
       && run.members[k].verification == FailedWith(finding.code)
       && CleanedUp(x, run, finding, Front(x, k) + LeftBehind(x, k, run.accounted), Aborted)
  }

  /** Stopped after the last member because two members share a canonical path. */
  predicate StoppedOverDuplicate(x: Setting, run: Run) {
    && Stopped(x, run, |x.plan|) && !DistinctPaths(x.plan)
    && CleanedUp(x, run, Finding(Error, CoveringInconsistent), Front(x, |x.plan|), Aborted)
  }

  /** Everything verified: the run shows all members, sorted by path. */
  ghost predicate AllGood(x: Setting, run: Run) {
    && SamePlan(x.plan, run.members) && AllVerified(run.members) && DistinctPaths(x.plan)
    && Shows(run.outcome.membersView, run.members)
    && run.outcome.axes.verification.Complete?
    && run.accounted == VerifiedBytes(run.members) <= x.request.maxTotalBytes
  }

  /** The audit refused the stage, or the commit failed. */
  ghost predicate PublicationRefused(x: Setting, run: Run) {
    && x.request.dest && AllGood(x, run)
    && run.outcome.axes == AdmittedPublicationFailed() && run.outcome.verdict.Rejected?
    && if x.world.audit.Err? then
         CleanedUp(x, run, x.world.audit.error, Front(x, |x.plan|), Aborted)
       else
         && x.world.commit.Err?
         && CleanedUp(x, run, x.world.commit.error.finding, Front(x, |x.plan|) + [AuditPassed],
                      if x.world.commit.error.marked then PublicationFailed else Aborted)
  }

  /** What a committed stage still reports: discarding its record, then syncing the parent directory. */
  function LateFindings(x: Setting): seq<Finding> {
    Reported(Discard(x.world, x.request.retentionPath)) + Reported(ParentSync(x.world, x.request.directorySync))
  }

  ghost predicate Finished(x: Setting, run: Run) {
    && AllGood(x, run)
    && run.outcome.axes == (if x.request.dest then MaterializeCommitted() else InspectComplete())
    && run.outcome.verdict == Allowed(x.request.dest)
    && run.outcome.findings == x.earlier + (if x.request.dest then LateFindings(x) else [])
    && run.outcome.materialization == (if x.request.dest then Report(PublishedTree, NotApplicable) else x.initial)
    && run.log == if x.request.dest then Front(x, |x.plan|) + [AuditPassed, Published] else []
  }

  ghost predicate Ends(x: Setting, run: Run) {
    || NotReady(x, run)
    || SetupStopped(x, run)
    || (exists k :: 0 <= k < |x.plan| && StoppedEarly(x, run, k))
    || StoppedOverDuplicate(x, run)
    || PublicationRefused(x, run)
    || Finished(x, run)
  }

  /** The runs the surroundings allow to finish. */
  predicate Succeeds(x: Setting) {
    && x.world.ready.Ok?
    && (x.request.dest ==>
          x.world.createStage.Ok? && (x.request.retentionPath ==> x.world.persistRetention.Ok?))
    && Account(x, |x.plan|).Ok?
    && DistinctPaths(x.plan)
    && (x.request.dest ==> x.world.audit.Ok? && x.world.commit.Ok?)
  }

  // ---- The steps ----

  /** A stage of this run in which nothing was committed or removed. */
  ghost predicate Staging(x: Setting, stage: Stage?)
    reads stage
  {
    && (stage != null <==> x.request.dest)
    && (stage != null ==>
          && stage.world == x.world && stage.directorySync == x.request.directorySync
          && stage.recorded == x.request.retentionPath && stage.IsOpen())
  }

  lemma StagingMeans(x: Setting, stage: Stage?)
    requires Staging(x, stage)
    ensures stage != null <==> x.request.dest
  {
  }

  /** One member of the loop: its stage effect, its verification and its accounting. */
  method VerifyMember(x: Setting, stage: Stage?, quota: QuotaState, i: nat) returns (r: Result<u64, ErrorFinding>)
    requires Staging(x, stage) && i < |x.plan|
    requires quota.Valid() && quota.limit == x.request.maxTotalBytes
    modifies quota, stage
    ensures Staging(x, stage) && quota.Valid()
    ensures Step(x, i, old(quota.used)) == if r.Ok? then Ok(quota.used as nat) else Err(r.error)
    ensures quota.used == old(quota.used) + (if r.Ok? && x.plan[i].kind.File? then r.value else 0)
    ensures stage != null ==>
              stage.log ==
              old(stage.log) + (if r.Ok? then [MadeEvent(x.plan[i], i)] else LeftBehind(x, i, old(quota.used)))
  {
    if x.plan[i].kind.Directory? {
      if stage != null {
        var made := x.world.createDirectory(i);
        if made.Err? {
          return Err(made.error);
        }
        stage.Add(DirectoryMade(i));
      }
      return Ok(0);
    }
    var payload := x.world.openPayload(i);
    if payload.Err? {
      return Err(payload.error);
    }
    var remaining := quota.Remaining();
    var processed := x.world.process(i, remaining);
    if processed.Err? {
      return Err(processed.error);
    }
    if stage != null {
      stage.Add(FileWritten(i));
    }
    var consumed := quota.Consume(processed.value);
    if consumed.Err? {
      return Err(QuotaFinding(consumed.error));
    }
    return Ok(processed.value);
  }

  /** `validate_verified_archive_authority`: everything verified and no canonical path twice. */
  method ValidateVerified(members: seq<Member>) returns (r: Result<(), ErrorFinding>)
    ensures r.Ok? <==> AllVerified(members) && DistinctPaths(members)
    ensures r.Err? ==> r.error == Finding(Error, CoveringInconsistent)
  {
    for i := 0 to |members|
      invariant AllVerified(members[..i])
    {
      assert members[..i + 1] == members[..i] + [members[i]];
      if !members[i].verification.Verified? {
        return Err(Finding(Error, CoveringInconsistent));
      }
    }
    assert members[..|members|] == members;
    var seen: map<seq<byte>, nat> := map[];
    for i := 0 to |members|
      invariant forall p :: p in seen ==> seen[p] < i && members[seen[p]].canonicalPath == p
      invariant forall k :: 0 <= k < i ==> members[k].canonicalPath in seen
      invariant forall j, k :: 0 <= j < k < i ==> members[j].canonicalPath != members[k].canonicalPath
    {
      var path := members[i].canonicalPath;
      if path in seen {
        return Err(Finding(Error, CoveringInconsistent));
      }
      seen := seen[path := i];
    }
    return Ok(());
  }

  /** An error pushed after the earlier findings is found among them. */
  lemma PushedErrorIsThere(earlier: seq<Finding>, finding: ErrorFinding, more: seq<Finding>)
    ensures HasError(earlier + [finding] + more)
  {
    assert (earlier + [finding] + more)[|earlier|] == finding;
  }

  /** The four places of the loop that stop: push the finding, clean up, and report how far verification came. */
  method StopVerification(x: Setting, stage: Stage?, finding: ErrorFinding, fallback: Materialization,
          view: seq<Member>)
    returns (outcome: Outcome, log: seq<Event>)
    requires Staging(x, stage) && |view| <= |x.plan| && (stage == null ==> fallback == x.initial)
    modifies stage
    ensures outcome.membersView == view && outcome.verdict.Rejected?
    ensures outcome.axes.verification == Partial(|view|, |x.plan| - |view|)
    ensures outcome.axes.effect == (if x.request.dest then Failed else NotRequested)
    ensures CleanedUp(x, Run(outcome, [], log, 0), finding, if stage == null then [] else old(stage.log), Aborted)
  {
    var all, report := AbortAndReport(stage, x.earlier + [finding], fallback);
    PushedErrorIsThere(x.earlier, finding, []);
    PushedErrorIsThere(x.earlier, finding, AbortFindings(x.world, x.request.retentionPath));
    assert all == x.earlier + [finding] ==> all == x.earlier + [finding] + [];
    var cause := FirstError(all);
    outcome := Finish(all, view, report,
                      AdmittedVerificationStop(|view|, |x.plan| - |view|, cause, x.request.dest));
    log := if stage == null then [] else stage.log;
  }

  /** `CapabilityMaterializer::create` and the retention record: an open stage, or the run that ends here. */
  method OpenStage(x: Setting) returns (stage: Stage?, stopped: Option<Run>)
    requires x.request.dest
    ensures stopped.None? <==>
            x.world.createStage.Ok? && (x.request.retentionPath ==> x.world.persistRetention.Ok?)
    ensures stopped.None? ==> fresh(stage) && Staging(x, stage) && stage.log == Opening(x.request)
    ensures stopped.Some? ==> SetupStopped(x, stopped.value)
  {
    if x.world.createStage.Err? {
      var failure := x.world.createStage.error;
      PushedErrorIsThere(x.earlier, failure.first, failure.more);
      var all := x.earlier + [failure.first] + failure.more;
      var outcome := Finish(all, [], SetupFailed, AdmittedSetupFailed(FirstError(all)));
      return null, Some(Run(outcome, x.plan, [], 0));
    }
    var created := new Stage(x.world, x.request.directorySync);
    if x.request.retentionPath {
      var persisted := created.PersistRetention();
      if persisted.Err? {
        var all, report := AbortAndReport(created, x.earlier + [persisted.error], NotStarted);
        PushedErrorIsThere(x.earlier, persisted.error, AbortFindings(x.world, false));
        var outcome := Finish(all, [], report, AdmittedSetupFailed(FirstError(all)));
        return null, Some(Run(outcome, x.plan, created.log, 0));
      }
    }
    return created, None;
  }

  /** Audit and commit of a fully verified stage. */
  method Publish(x: Setting, stage: Stage, members: seq<Member>, view: seq<Member>, accounted: nat) returns (run: Run)
    requires Staging(x, stage) && stage.log == Front(x, |x.plan|) && Shows(view, members)
    requires SamePlan(x.plan, members) && AllVerified(members) && DistinctPaths(x.plan)
    requires accounted == VerifiedBytes(members) <= x.request.maxTotalBytes
    modifies stage
    ensures run.members == members
    ensures if x.world.audit.Ok? && x.world.commit.Ok? then Finished(x, run) else PublicationRefused(x, run)
  {
    hide Shows, VerifiedBytes, MadeEvents, DistinctPaths, AllVerified, SamePlan, AbortFindings, AbortEvents,
         AbortCleanup, Front;
    var audited := stage.Audit();
    if audited.Err? {
      var all, report := AbortAndReport(stage, x.earlier + [audited.error], NotStarted);
      return Run(Finish(all, view, report, AdmittedPublicationFailed()), members, stage.log, accounted);
    }
    var committed := stage.Commit();
    if committed.Err? {
      var all, report := AbortAndReport(stage, x.earlier + [committed.error], NotStarted);
      return Run(Finish(all, view, report, AdmittedPublicationFailed()), members, stage.log, accounted);
    }
    var all := x.earlier;
    if stage.discardError.Some? {
      all := all + [stage.discardError.value];
    }
    if stage.parentSyncError.Some? {
      all := all + [stage.parentSyncError.value];
    }
    assert all == x.earlier + LateFindings(x);
    assert stage.log == Front(x, |x.plan|) + [AuditPassed, Published];
    return Run(Finish(all, view, Report(stage.outcome, stage.cleanup), MaterializeCommitted()),
               members, stage.log, accounted);
  }

  // ---- What the loop keeps ----

  lemma PrefixAgain(plan: seq<Member>, members: seq<Member>, i: nat, next: Member)
    requires VerifiedPrefix(plan, members, i) && i < |plan| && members[i] == plan[i]
    requires next.canonicalPath == plan[i].canonicalPath && next.kind == plan[i].kind && next.verification.Verified?
    ensures VerifiedPrefix(plan, members[i := next], i + 1)
    ensures members[i := next][..i + 1] == members[..i] + [next]
  {
    assert members[i := next][..i + 1] == members[..i] + [next];
  }

  lemma PrefixStops(plan: seq<Member>, members: seq<Member>, i: nat, cause: FindingCode)
    requires VerifiedPrefix(plan, members, i) && i < |plan| && members[i] == plan[i]
    ensures VerifiedPrefix(plan, members[i := MarkFailed(members[i], cause)], i)
    ensures members[i := MarkFailed(members[i], cause)][..i] == members[..i]
  {
    assert members[i := MarkFailed(members[i], cause)][..i] == members[..i];
  }

  lemma PrefixRest(plan: seq<Member>, members: seq<Member>, k: nat)
    requires VerifiedPrefix(plan, members, k)
    ensures |members| == |plan| && forall i :: k < i < |plan| ==> members[i] == plan[i]
  {
  }

  lemma VerifiedBytesAppend(members: seq<Member>, m: Member, actual: u64)
    requires m.actualSize == Some(actual)
    ensures VerifiedBytes(members + [m]) == VerifiedBytes(members) + (if m.kind.File? then actual else 0)
  {
    assert (members + [m])[..|members|] == members;
  }

  lemma FrontAppend(x: Setting, i: nat)
    requires i < |x.plan|
    ensures Front(x, i) + [MadeEvent(x.plan[i], i)] == Front(x, i + 1)
  {
    assert MadeEvents(x.plan, i) + [MadeEvent(x.plan[i], i)] == MadeEvents(x.plan, i + 1);
  }

  /** What the loop keeps: a verified prefix, shown and accounted, and the rest of the plan untouched. */
  predicate Progress(x: Setting, members: seq<Member>, view: seq<Member>, k: nat, used: nat) {
    && VerifiedPrefix(x.plan, members, k) && (k < |x.plan| ==> members[k] == x.plan[k])
    && view == members[..k]
    && used == VerifiedBytes(view) <= x.request.maxTotalBytes
    && Account(x, k) == Ok(used)
  }

  lemma ProgressStarts(x: Setting)
    ensures Progress(x, x.plan, [], 0, 0)
    ensures Front(x, 0) == Opening(x.request)
  {
  }

  lemma ProgressHere(x: Setting, members: seq<Member>, view: seq<Member>, k: nat, used: nat)
    requires Progress(x, members, view, k, used)
    ensures k <= |x.plan| == |members| && |view| == k && used <= x.request.maxTotalBytes
    ensures k < |x.plan| ==> members[k] == x.plan[k]
  {
    hide Account, VerifiedBytes, AllVerified;
  }

  lemma ProgressStep(x: Setting, members: seq<Member>, view: seq<Member>, k: nat, used: nat, actual: u64, next: nat)
    requires Progress(x, members, view, k, used) && k < |x.plan|
    requires Step(x, k, used) == Ok(next) && next == used + (if x.plan[k].kind.File? then actual else 0)
    ensures k < |members|
    ensures var m := MarkVerified(x.plan[k], actual); Progress(x, members[k := m], view + [m], k + 1, next)
  {
    var m := MarkVerified(x.plan[k], actual);
    PrefixAgain(x.plan, members, k, m);
    VerifiedBytesAppend(view, m, actual);
    hide VerifiedPrefix, VerifiedBytes, Step;
    assert k + 1 < |x.plan| ==> members[k + 1] == x.plan[k + 1] by { PrefixRest(x.plan, members, k); }
  }

  /** What the loop knows when it stops is what explains the run. */
  lemma ProgressStops(x: Setting, members: seq<Member>, view: seq<Member>, k: nat, used: nat, finding: ErrorFinding,
          run: Run)
    requires Progress(x, members, view, k, used) && k < |x.plan| && Step(x, k, used) == Err(finding)
    requires k < |members| && run.members == members[k := MarkFailed(members[k], finding.code)]
    requires run.outcome.membersView == view && run.outcome.verdict.Rejected? && run.accounted == used
    requires run.outcome.axes.verification == Partial(|view|, |x.plan| - |view|)
    requires run.outcome.axes.effect == (if x.request.dest then Failed else NotRequested)
    requires CleanedUp(x, run, finding, Front(x, k) + LeftBehind(x, k, used), Aborted)
    ensures StoppedEarly(x, run, k)
  {
    PrefixStops(x.plan, members, k, finding.code);
    hide VerifiedPrefix, VerifiedBytes, CleanedUp, Step, LeftBehind, Front;
  }

  lemma ProgressEnds(x: Setting, members: seq<Member>, view: seq<Member>, used: nat)
    requires Progress(x, members, view, |x.plan|, used)
    ensures VerifiedPrefix(x.plan, members, |x.plan|) && AllVerified(members) && view == members
    ensures Account(x, |x.plan|) == Ok(used) && used == VerifiedBytes(members) <= x.request.maxTotalBytes
  {
    hide Account, VerifiedBytes;
    assert members[..|x.plan|] == members;
  }

  lemma CleanedUpSame(x: Setting, a: Run, b: Run, finding: ErrorFinding, front: seq<Event>, other: seq<Event>)
    requires CleanedUp(x, a, finding, front, Aborted) && a.outcome == b.outcome && a.log == b.log
    requires x.request.dest ==> front == other
    ensures CleanedUp(x, b, finding, other, Aborted)
  {
    hide AbortFindings, AbortEvents, AbortCleanup;
  }

  /** The loop over the members. */
  method VerifyMembers(x: Setting, stage: Stage?, quota: QuotaState, materialization: Materialization)
    returns (members: seq<Member>, stopped: Option<Run>)
    requires quota.Valid() && quota.limit == x.request.maxTotalBytes && quota.used == 0
    requires Staging(x, stage) && (stage != null ==> stage.log == Opening(x.request))
    requires stage == null ==> materialization == x.initial
    modifies quota, stage
    ensures quota.Valid() && quota.limit == x.request.maxTotalBytes
    ensures stopped.Some? ==> exists k :: 0 <= k < |x.plan| && StoppedEarly(x, stopped.value, k)
    ensures stopped.None? ==> Progress(x, members, members, |x.plan|, quota.used)
    ensures stopped.None? ==> Staging(x, stage) && (stage != null ==> stage.log == Front(x, |x.plan|))
  {
    hide *;
    var view := [];
    members := x.plan;
    ProgressStarts(x);
    var index := 0;
    while index < |x.plan|
      invariant index <= |x.plan| && quota.Valid() && quota.limit == x.request.maxTotalBytes
      invariant Staging(x, stage) && (stage != null ==> stage.log == Front(x, index))
      invariant Progress(x, members, view, index, quota.used)
    {
      ghost var used: nat := quota.used;
      ProgressHere(x, members, view, index, used);
      StagingMeans(x, stage);
      var verified := VerifyMember(x, stage, quota, index);
      FrontAppend(x, index);
      if verified.Err? {
        ghost var front := if stage == null then [] else stage.log;
        var outcome, log := StopVerification(x, stage, verified.error, materialization, view);
        var failed := members[index := MarkFailed(members[index], verified.error.code)];
        stopped := Some(Run(outcome, failed, log, quota.used));
        CleanedUpSame(x, Run(outcome, [], log, 0), stopped.value, verified.error, front,
                      Front(x, index) + LeftBehind(x, index, used));
        ProgressStops(x, members, view, index, used, verified.error, stopped.value);
        return failed, stopped;
      }
      ProgressStep(x, members, view, index, used, verified.value, quota.used);
      members := members[index := MarkVerified(members[index], verified.value)];
      view := view + [members[index]];
      index := index + 1;
    }
    ProgressEnds(x, members, view, quota.used);
    return members, None;
  }

  /** The authority check refused the members: clean up, with everything verified and nothing allowed. */
  method StopOverDuplicate(x: Setting, stage: Stage?, members: seq<Member>, materialization: Materialization,
          accounted: nat)
    returns (run: Run)
    requires Staging(x, stage) && (stage != null ==> stage.log == Front(x, |x.plan|))
    requires stage == null ==> materialization == x.initial
    requires VerifiedPrefix(x.plan, members, |x.plan|) && !DistinctPaths(x.plan)
    requires accounted == VerifiedBytes(members) <= x.request.maxTotalBytes && Account(x, |x.plan|) == Ok(accounted)
    modifies stage
    ensures run.members == members && StoppedOverDuplicate(x, run)
  {
    assert members[..|x.plan|] == members;
    hide VerifiedBytes, DistinctPaths, AllVerified, Account, Front, AbortFindings, AbortEvents, AbortCleanup;
    var finding: ErrorFinding := Finding(Error, CoveringInconsistent);
    var all, report := AbortAndReport(stage, x.earlier + [finding], materialization);
    var axes := SemanticAxes(Indeterminate, Admitted, Partial(|x.plan|, 0),
                             if x.request.dest then Failed else NotRequested,
                             PartialView(VerificationPhase, finding.code));
    return Run(Finish(all, members, report, axes), members, if stage == null then [] else stage.log, accounted);
  }

  lemma AuthorityOf(plan: seq<Member>, members: seq<Member>)
    requires VerifiedPrefix(plan, members, |plan|)
    ensures SamePlan(plan, members) && AllVerified(members) && (DistinctPaths(plan) <==> DistinctPaths(members))
    ensures DistinctPaths(plan) ==> Shows(SortByPath(members), members)
  {
    assert members[..|plan|] == members;
    if DistinctPaths(members) { SortShows(members); }
  }

  /** After the loop: the authority check, then publication if there is a stage. */
  method Conclude(x: Setting, stage: Stage?, members: seq<Member>, materialization: Materialization, accounted: nat)
    returns (run: Run)
    requires Staging(x, stage) && (stage != null ==> stage.log == Front(x, |x.plan|))
    requires stage == null ==> materialization == x.initial
    requires VerifiedPrefix(x.plan, members, |x.plan|)
    requires accounted == VerifiedBytes(members) <= x.request.maxTotalBytes && Account(x, |x.plan|) == Ok(accounted)
    modifies stage
    ensures run.members == members
    ensures !DistinctPaths(x.plan) ==> StoppedOverDuplicate(x, run)
    ensures DistinctPaths(x.plan) ==>
              if x.request.dest ==> x.world.audit.Ok? && x.world.commit.Ok? then Finished(x, run)
              else PublicationRefused(x, run)
  {
    AuthorityOf(x.plan, members);
    StagingMeans(x, stage);
    hide Shows, SortByPath, VerifiedBytes, DistinctPaths, AllVerified, SamePlan, VerifiedPrefix, Account, Front;
    hide Staging, StoppedOverDuplicate, PublicationRefused;
    var authority := ValidateVerified(members);
    if authority.Err? {
      run := StopOverDuplicate(x, stage, members, materialization, accounted);
      return run;
    }
    var view := SortByPath(members);
    if stage != null {
      run := Publish(x, stage, members, view, accounted);
      return run;
    }
    assert x.earlier == x.earlier + [];
    return Run(Finish(x.earlier, view, materialization, InspectComplete()), members, [], accounted);
  }

  /** A run that stopped before the end could not have succeeded. */
  lemma StoppedIsNotFinished(x: Setting, run: Run, k: nat)
    requires StoppedEarly(x, run, k)
    ensures !Succeeds(x) && !Finished(x, run)
  {
    hide Stopped, CleanedUp;
    if Account(x, |x.plan|).Ok? { AccountIsMonotone(x, k + 1, |x.plan|); }
    assert Stopped(x, run, k) ==> run.outcome.verdict.Rejected? by { StoppedIsRejected(x, run, k); }
  }

  lemma StoppedIsRejected(x: Setting, run: Run, k: nat)
    ensures Stopped(x, run, k) ==>
            run.outcome.verdict.Rejected? && run.outcome.axes.verification == Partial(k, |x.plan| - k)
  {
  }

  /** `execute_ready_archive`: it finishes exactly when it may, and otherwise ends in one of the failure shapes. */
  method ExecuteReadyArchive(x: Setting) returns (run: Run)
    ensures Ends(x, run)
    ensures Finished(x, run) <==> Succeeds(x)
  {
    if x.world.ready.Err? {
      var cause: Finding := x.world.ready.error;
      var axes := if x.world.transformWrapped then StructureStop(Indeterminate, NotEvaluated, cause)
                  else StructureStop(Malformed, Denied, cause);
      return Run(Finish(x.earlier + [cause], [], x.initial, axes), x.plan, [], 0);
    }
    var quota := new QuotaState(x.request.maxTotalBytes);
    var stage: Stage? := null;
    var materialization := x.initial;
    if x.request.dest {
      var created, failed := OpenStage(x);
      if failed.Some? {
        return failed.value;
      }
      stage := created;
      materialization := Report(Staged, CleanupPending);
    }
    hide VerifiedPrefix, Account, DistinctPaths, VerifiedBytes, AllVerified, SamePlan, CleanedUp, Front, Stopped,
         Staging;
    StagingOf(x, stage);
    var members, stopped := VerifyMembers(x, stage, quota, materialization);
    if stopped.Some? {
      run := stopped.value;
      ghost var at :| 0 <= at < |x.plan| && StoppedEarly(x, run, at);
      StoppedIsNotFinished(x, run, at);
      return run;
    }
    ProgressEnds(x, members, members, quota.used);
    run := Conclude(x, stage, members, materialization, quota.used);
    StoppedIsRejected(x, run, |x.plan|);
  }

  lemma StagingOf(x: Setting, stage: Stage?)
    requires stage == null ==> !x.request.dest
    requires stage != null ==> Staging(x, stage)
    ensures Staging(x, stage)
  {
  }

  // ---- What holds however a run ends ----

  predicate Unpublished(log: seq<Event>) {
    Published !in log && (log == [] || log[|log| - 1] == AbortTried)
  }

  lemma FrontNeverPublishes(x: Setting, made: nat)
    requires made <= |x.plan|
    ensures Published !in Front(x, made)
  {
  }

  lemma AbortedLog(x: Setting, front: seq<Event>)
    requires Published !in front
    ensures Unpublished(front + AbortEvents(x.world))
  {
  }

  lemma CleanedUpIsUnpublished(x: Setting, run: Run, finding: ErrorFinding, front: seq<Event>, outcome: StageOutcome)
    requires CleanedUp(x, run, finding, front, outcome) && Published !in front
    ensures Unpublished(run.log)
  {
    AbortedLog(x, front);
  }

  /** The log of every run: either it publishes, or it never opened, or its last event is an abort attempt. */
  lemma LogShapes(x: Setting, run: Run)
    requires Ends(x, run)
    ensures Finished(x, run) || Unpublished(run.log)
  {
    FrontNeverPublishes(x, |x.plan|);
    var all := Front(x, |x.plan|);
    hide AllGood, Stopped, CleanedUp, Front, AbortEvents, AbortFindings, AbortCleanup, DistinctPaths;
    if SetupStopped(x, run) {
      AbortedLog(x, [Opened]);
    } else if PublicationRefused(x, run) {
      if x.world.audit.Err? {
        CleanedUpIsUnpublished(x, run, x.world.audit.error, all, Aborted);
      } else {
        CleanedUpIsUnpublished(x, run, x.world.commit.error.finding, all + [AuditPassed],
                               if x.world.commit.error.marked then PublicationFailed else Aborted);
      }
    } else if StoppedOverDuplicate(x, run) {
      CleanedUpIsUnpublished(x, run, Finding(Error, CoveringInconsistent), all, Aborted);
    } else if !NotReady(x, run) && !Finished(x, run) {
      var k :| 0 <= k < |x.plan| && StoppedEarly(x, run, k);
      FrontNeverPublishes(x, k);
      CleanedUpIsUnpublished(x, run, Account(x, k + 1).error, Front(x, k) + LeftBehind(x, k, run.accounted), Aborted);
    }
  }

  /** Nothing is published unless every member was verified and staged under its own path and the audit passed. */
  lemma PublicationSafety(x: Setting, run: Run)
    requires Ends(x, run) && Published in run.log
    ensures x.request.dest && AllVerified(run.members) && SamePlan(x.plan, run.members) && DistinctPaths(x.plan)
    ensures VerifiedBytes(run.members) == run.accounted <= x.request.maxTotalBytes
    ensures run.log == Front(x, |x.plan|) + [AuditPassed, Published]
    ensures run.outcome.verdict == Allowed(true)
  {
    hide Stopped, CleanedUp, NotReady, SetupStopped, AllVerified, DistinctPaths, VerifiedBytes, SamePlan, Front;
    LogShapes(x, run);
  }

  lemma FinishedPublishes(x: Setting, run: Run)
    requires run.log != []
    ensures Finished(x, run) ==> Published in run.log
  {
    if Finished(x, run) { assert run.log[|run.log| - 1] == Published; }
  }

  /** Once a stage is open, every end but publication tries to remove it and allows nothing. */
  lemma FailureAborts(x: Setting, run: Run)
    requires Ends(x, run) && run.log != [] && Published !in run.log
    ensures run.log[|run.log| - 1] == AbortTried
    ensures run.outcome.verdict == Rejected && CompatExitCode(run.outcome.axes) != 0
  {
    LogShapes(x, run);
    FinishedPublishes(x, run);
    AllowedIsFinished(x, run);
  }

  /** The verdict is computed from the axes in every ending, so the exit code follows it. */
  lemma AllowedIsFinished(x: Setting, run: Run)
    requires Ends(x, run)
    ensures run.outcome.verdict.Allowed? <==> Finished(x, run)
    ensures run.outcome.axes.effect.Committed? <==> Finished(x, run) && x.request.dest
    ensures !run.outcome.verdict.Allowed? ==> CompatExitCode(run.outcome.axes) != 0
  {
    hide AllGood, VerifiedPrefix, CleanedUp, DistinctPaths, VerifiedBytes, Front, Account, LateFindings;
  }

  /** A complete view has the verdict and the total of the members it shows. */
  lemma CompleteViewIsAccounted(x: Setting, run: Run)
    requires AllGood(x, run)
    ensures |run.outcome.membersView| == |x.plan| && AllVerified(run.outcome.membersView)
    ensures run.accounted == VerifiedBytes(run.outcome.membersView)
  {
    AllVerifiedPermute(run.members, run.outcome.membersView);
    VerifiedBytesPermute(run.members, run.outcome.membersView);
    hide AllVerified, VerifiedBytes, DistinctPaths;
  }

  /**
   However a run ends, it shows verified members only, and the bytes are exactly theirs: a prefix of the plan
   while something is pending, and all of it in path order once nothing is.
   */
  lemma ViewIsAccounted(x: Setting, run: Run)
    requires Ends(x, run)
    ensures AllVerified(run.outcome.membersView)
    ensures run.accounted == VerifiedBytes(run.outcome.membersView) <= x.request.maxTotalBytes
    ensures match run.outcome.axes.verification
            case Partial(verified, pending) =>
              && verified == |run.outcome.membersView| <= |run.members| && verified + pending == |x.plan|
              && run.outcome.membersView == run.members[..verified]
            case Complete => |run.outcome.membersView| == |x.plan| && Shows(run.outcome.membersView, run.members)
            case StructureOnly => run.outcome.membersView == []
  {
    if AllGood(x, run) { CompleteViewIsAccounted(x, run); }
    assert VerifiedBytes([]) == 0;
    hide CleanedUp, DistinctPaths, Front, Account, LateFindings, Shows;
  }

  /** However a run ends, the earlier findings are kept in front; a rejected run adds at least one error to them. */
  lemma FindingsAreKept(x: Setting, run: Run)
    requires Ends(x, run)
    ensures x.earlier <= run.outcome.findings
    ensures run.outcome.verdict.Rejected? ==> HasError(run.outcome.findings[|x.earlier|..])
  {
    hide AllGood, Stopped, DistinctPaths, Front, Account, LateFindings, AbortFindings, AbortEvents, AbortCleanup;
    var n, all := |x.earlier|, run.outcome.findings;
    AllowedIsFinished(x, run);
    if !Finished(x, run) {
      assert n < |all| && all[..n] == x.earlier && all[n].severity.Error?;
      assert all[n..][0] == all[n];
    }
  }

  /** A committed run adds no finding exactly when its record was discarded and its parent directory synced. */
  lemma CommittedFindings(x: Setting, run: Run)
    requires Finished(x, run) && x.request.dest
    ensures run.outcome.findings == x.earlier <==>
            !(x.request.retentionPath && x.world.discardRecord.Err?)
            && !(x.request.directorySync && x.world.parentSync.Err?)
  {
    hide AllGood, Front;
    assert |x.earlier + LateFindings(x)| == |x.earlier| + |LateFindings(x)|;
    assert x.earlier + [] == x.earlier;
  }

  /** A run that is committed and allowed, exits with 0 and still carries an error. */
  lemma CommittedRunCarriesError() returns (x: Setting, run: Run)
    ensures Succeeds(x) && Finished(x, run) && run.outcome.verdict == Allowed(true)
    ensures CompatExitCode(run.outcome.axes) == 0 && x.earlier == []
    ensures run.outcome.findings == [Finding(Error, MaterializeCleanup)]
  {
    var world := World(Ok(()), false, Ok(()), Ok(()), _ => Ok(()), _ => Ok(()), (_, _) => Ok(0), Ok(()), Ok(()),
                       _ => Ok(()), Err(Finding(Error, MaterializeCleanup)), Ok(()));
    x := Setting(world, Request(true, true, false, 0), [], [], NotStarted);
    run := Run(Finish([Finding(Error, MaterializeCleanup)], [], Report(PublishedTree, NotApplicable),
                      MaterializeCommitted()),
               [], Front(x, 0) + [AuditPassed, Published], 0);
  }
}
