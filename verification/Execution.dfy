/** Verifying, staging and publishing the members of an admitted archive. */
module Execution {
  import opened Prelude

  // ---- Findings and semantic axes ----

  datatype FindingCode =
    | SourceIo | CodecDeflateInvalidStream | CodecDeflateTrailingInput | ZipDiffC4Offset
    | MaterializeIo | MaterializeUnsafeComponent | MaterializeCommit | MaterializeExists | MaterializeAudit
    | MaterializeCleanup
    | QuotaOverflow | QuotaTotal | CoveringInconsistent
    | OtherCode(name: string)

  datatype Severity = Warning | Error

  datatype Finding = Finding(severity: Severity, code: FindingCode)

  /** What `Finding::error` builds. */
  type ErrorFinding = f: Finding | f.severity.Error? witness Finding(Error, SourceIo)

  datatype Interpretation = Interpreted | Malformed | Unsupported | Indeterminate
  datatype Admission = Admitted | Denied | NotEvaluated
  datatype Verification = StructureOnly | Partial(verifiedMembers: nat, pendingMembers: nat) | Complete
  datatype Effect = NotRequested | Committed | Failed
  datatype Phase = SourcePhase | StructurePhase | AdmissionPhase | VerificationPhase | EffectPhase
  datatype ViewCompleteness = WholeView | PartialView(phase: Phase, cause: FindingCode)

  datatype SemanticAxes = SemanticAxes(
    interpretation: Interpretation,
    admission: Admission,
    verification: Verification,
    effect: Effect,
    view: ViewCompleteness)

  function InspectComplete(): SemanticAxes {
    SemanticAxes(Interpreted, Admitted, Complete, NotRequested, WholeView)
  }

  function MaterializeCommitted(): SemanticAxes {
    SemanticAxes(Interpreted, Admitted, Complete, Committed, WholeView)
  }

  function StructureStop(interpretation: Interpretation, admission: Admission, cause: Finding): SemanticAxes {
    SemanticAxes(interpretation, admission, StructureOnly, NotRequested, PartialView(StructurePhase, cause.code))
  }

  function AdmittedSetupFailed(cause: Finding): SemanticAxes {
    SemanticAxes(Interpreted, Admitted, StructureOnly, Failed, PartialView(EffectPhase, cause.code))
  }

  function AdmittedPublicationFailed(): SemanticAxes {
    SemanticAxes(Interpreted, Admitted, Complete, Failed, WholeView)
  }

  function VerificationStopStatus(code: FindingCode): (Interpretation, Admission) {
    match code
    case SourceIo => (Indeterminate, Admitted)
    case CodecDeflateInvalidStream => (Malformed, NotEvaluated)
    case CodecDeflateTrailingInput => (Malformed, NotEvaluated)
    case ZipDiffC4Offset => (Malformed, NotEvaluated)
    case MaterializeIo => (Interpreted, Admitted)
    case MaterializeUnsafeComponent => (Interpreted, Admitted)
    case MaterializeCommit => (Interpreted, Admitted)
    case MaterializeExists => (Interpreted, Admitted)
    case _ => (Interpreted, Denied)
  }

  function AdmittedVerificationStop(verified: nat, pending: nat, cause: Finding, destRequested: bool): SemanticAxes {
    var status := VerificationStopStatus(cause.code);
    SemanticAxes(status.0, status.1, Partial(verified, pending), if destRequested then Failed else NotRequested,
                 PartialView(VerificationPhase, cause.code))
  }

  datatype Verdict = Allowed(wrote: bool) | Rejected

  /** `compat_verdict`. */
  function CompatVerdict(axes: SemanticAxes): Verdict {
    match (axes.admission, axes.verification, axes.effect)
    case (Admitted, Complete, Committed) => Allowed(true)
    case (Admitted, Complete, NotRequested) => Allowed(false)
    case _ => Rejected
  }

  /** `compat_exit_code`. */
  function CompatExitCode(axes: SemanticAxes): nat {
    match (axes.admission, axes.verification, axes.effect)
    case (Admitted, _, Failed) => 3
    case (Admitted, Complete, Committed) => 0
    case (Admitted, Complete, NotRequested) => 0
    case _ => 2
  }

  /** The exit code and the verdict never disagree. */
  lemma ExitCodeAgreesWithVerdict(axes: SemanticAxes)
    ensures CompatExitCode(axes) == 0 <==> CompatVerdict(axes).Allowed?
    ensures CompatVerdict(axes) == Allowed(true) ==> axes.effect == Committed
    ensures CompatExitCode(axes) in {0, 2, 3}
  {
  }

  // ---- Members ----

  datatype MemberKind = File | Directory

  datatype MemberVerification = Pending | Verified | FailedWith(cause: FindingCode)

  datatype Member = Member(
    canonicalPath: seq<byte>,
    kind: MemberKind,
    verification: MemberVerification,
    actualSize: Option<u64>)

  function MarkVerified(m: Member, actual: u64): Member {
    m.(verification := Verified, actualSize := Some(actual))
  }

  function MarkFailed(m: Member, cause: FindingCode): Member {
    m.(verification := FailedWith(cause))
  }

  /** A commit that fails; `marked` if the stage had already been declared unpublishable. */
  datatype CommitFailure = CommitFailure(finding: ErrorFinding, marked: bool)

  /** Findings of a stage that could not be created: at least one. */
  datatype SetupFailure = SetupFailure(first: ErrorFinding, more: seq<ErrorFinding>)

  /** Everything a run may meet outside itself: codecs, the filesystem and the earlier validation. */
  datatype World = World(
    ready: Result<(), ErrorFinding>,
    transformWrapped: bool,
    createStage: Result<(), SetupFailure>,
    persistRetention: Result<(), ErrorFinding>,
    createDirectory: nat -> Result<(), ErrorFinding>,
    openPayload: nat -> Result<(), ErrorFinding>,
    process: (nat, u64) -> Result<u64, ErrorFinding>,
    audit: Result<(), ErrorFinding>,
    commit: Result<(), CommitFailure>,
    remove: nat -> Result<(), ErrorFinding>,
    discardRecord: Result<(), ErrorFinding>,
    parentSync: Result<(), ErrorFinding>)

  datatype Request = Request(dest: bool, retentionPath: bool, directorySync: bool, maxTotalBytes: u64)

  // ---- The stage ----

  datatype Event =
    | Opened | RetentionRecorded | DirectoryMade(member: nat) | FileWritten(member: nat)
    | AuditPassed | Published | AbortTried

  datatype StageOutcome = Staged | Aborted | PublicationFailed | PublishedTree
  datatype Cleanup = CleanupPending | CleanupFailed | Removed | NotApplicable

  datatype Materialization = NotStarted | SetupFailed | Report(outcome: StageOutcome, cleanup: Cleanup)

  /** What removing the retention record reports; there is nothing to remove unless one was written. */
  function Discard(world: World, recorded: bool): Result<(), ErrorFinding> {
    if recorded then world.discardRecord else Ok(())
  }

  /** What syncing the destination's parent reports; it happens only on request. */
  function ParentSync(world: World, directorySync: bool): Result<(), ErrorFinding> {
    if directorySync then world.parentSync else Ok(())
  }

  function Reported(r: Result<(), ErrorFinding>): seq<Finding> {
    if r.Err? then [r.error] else []
  }

  /** The staging directory, reduced to what happens to it. */
  class Stage {
    const world: World
    const directorySync: bool
    var log: seq<Event>
    var outcome: StageOutcome
    var cleanup: Cleanup
    var removals: nat
    var recorded: bool
    var discardError: Option<ErrorFinding>
    var parentSyncError: Option<ErrorFinding>

    /** Nothing was committed or removed yet. */
    predicate IsOpen()
      reads this
    {
      outcome == Staged && cleanup == CleanupPending && removals == 0
    }

    constructor (world: World, directorySync: bool)
      ensures this.world == world && this.directorySync == directorySync
      ensures log == [Opened] && IsOpen() && !recorded
    {
      this.world, this.directorySync := world, directorySync;
      log, outcome, cleanup, removals, recorded := [Opened], Staged, CleanupPending, 0, false;
      discardError, parentSyncError := None, None;
    }

    method Add(e: Event)
      modifies this`log
      ensures log == old(log) + [e]
    {
      log := log + [e];
    }

    /** `persist_stage_retention`: a failed write leaves no record. */
    method PersistRetention() returns (r: Result<(), ErrorFinding>)
      modifies this`log, this`recorded
      ensures r == world.persistRetention
      ensures recorded == if r.Ok? then true else old(recorded)
      ensures log == if r.Ok? then old(log) + [RetentionRecorded] else old(log)
    {
      r := world.persistRetention;
      if r.Ok? {
        recorded := true;
        Add(RetentionRecorded);
      }
    }

    /** `audit_against`. */
    method Audit() returns (r: Result<(), ErrorFinding>)
      modifies this`log
      ensures r == world.audit
      ensures log == if r.Ok? then old(log) + [AuditPassed] else old(log)
    {
      r := world.audit;
      if r.Ok? {
        Add(AuditPassed);
      }
    }

    /** `commit`: what fails after the rename is kept for later, what fails before it may mark the outcome. */
    method Commit() returns (r: Result<(), ErrorFinding>)
      requires IsOpen()
      modifies this
      ensures r.Ok? <==> world.commit.Ok?
      ensures r.Ok? ==> log == old(log) + [Published] && outcome == PublishedTree && cleanup == NotApplicable
                        && recorded == (old(recorded) && world.discardRecord.Err?)
      ensures r.Ok? ==> (discardError.Some? <==> Discard(world, old(recorded)).Err?)
                        && (discardError.Some? ==> discardError.value == Discard(world, old(recorded)).error)
      ensures r.Ok? ==> (parentSyncError.Some? <==> ParentSync(world, directorySync).Err?)
                        && (parentSyncError.Some? ==> parentSyncError.value == ParentSync(world, directorySync).error)
      ensures r.Err? ==> r.error == world.commit.error.finding
                         && outcome == (if world.commit.error.marked then PublicationFailed else Staged)
                         && log == old(log) && cleanup == CleanupPending && removals == 0 && recorded == old(recorded)
    {
      var committed := world.commit;
      if committed.Err? {
        if committed.error.marked {
          outcome := PublicationFailed;
        }
        return Err(committed.error.finding);
      }
      Add(Published);
      outcome, cleanup := PublishedTree, NotApplicable;
      discardError, parentSyncError := None, None;
      if directorySync && world.parentSync.Err? {
        parentSyncError := Some(world.parentSync.error);
      }
      if recorded && world.discardRecord.Err? {
        discardError := Some(world.discardRecord.error);
      }
      recorded := recorded && world.discardRecord.Err?;
      return Ok(());
    }

    /** `abort`: removes the staging tree unless that is done or no longer allowed, then its record. */
    method Abort() returns (r: Result<(), ErrorFinding>)
      modifies this
      ensures if old(cleanup) in {CleanupPending, CleanupFailed} then
                && log == old(log) + [AbortTried] && removals == old(removals) + 1
                && outcome == (if old(outcome) == Staged then Aborted else old(outcome))
                && cleanup == (if world.remove(old(removals)).Err? then CleanupFailed else Removed)
                && r ==
                   (if world.remove(old(removals)).Err? then world.remove(old(removals))
                    else Discard(world, old(recorded)))
                && recorded == (old(recorded) && (cleanup == CleanupFailed || world.discardRecord.Err?))
              else
                r.Ok? && log == old(log) && cleanup == old(cleanup) && outcome == old(outcome)
                && removals == old(removals) && recorded == old(recorded)
    {
      if cleanup != CleanupPending && cleanup != CleanupFailed {
        return Ok(());
      }
      Add(AbortTried);
      var removed := world.remove(removals);
      removals := removals + 1;
      if outcome == Staged {
        outcome := Aborted;
      }
      if removed.Err? {
        cleanup := CleanupFailed;
        return removed;
      }
      cleanup := Removed;
      if !recorded {
        return Ok(());
      }
      recorded := world.discardRecord.Err?;
      return world.discardRecord;
    }
  }

  /** The findings of an abort and its second try. */
  function AbortFindings(world: World, recorded: bool): seq<Finding> {
    if world.remove(0).Ok? then Reported(Discard(world, recorded))
    else [world.remove(0).error] + Reported(if world.remove(1).Err? then world.remove(1) else Discard(world, recorded))
  }

  function AbortEvents(world: World): seq<Event> {
    if world.remove(0).Ok? then [AbortTried] else [AbortTried, AbortTried]
  }

  function AbortCleanup(world: World): Cleanup {
    if world.remove(0).Ok? || world.remove(1).Ok? then Removed else CleanupFailed
  }

  /** `abort_and_report`: one removal attempt, and a second if the first one failed. */
  method AbortAndReport(stage: Stage?, findings: seq<Finding>, fallback: Materialization)
    returns (allFindings: seq<Finding>, report: Materialization)
    requires stage != null ==> stage.outcome in {Staged, PublicationFailed}
                               && stage.cleanup == CleanupPending && stage.removals == 0
    modifies stage
    ensures stage == null ==> report == fallback && allFindings == findings
    ensures stage != null ==> allFindings == findings + AbortFindings(stage.world, old(stage.recorded))
    ensures stage != null ==> stage.log == old(stage.log) + AbortEvents(stage.world)
    ensures stage != null ==>
              report ==
              Report(if old(stage.outcome) == Staged then Aborted else PublicationFailed, AbortCleanup(stage.world))
  {
    allFindings := findings;
    if stage == null {
      return allFindings, fallback;
    }
    var first := stage.Abort();
    if first.Err? {
      allFindings := allFindings + [first.error];
      var second := stage.Abort();
      if second.Err? {
        allFindings := allFindings + [second.error];
      }
    }
    return allFindings, Report(stage.outcome, stage.cleanup);
  }

  // ---- The run ----

  predicate HasError(findings: seq<Finding>) {
    exists i :: 0 <= i < |findings| && findings[i].severity.Error?
  }

  /** `first_error`. */
  function FirstError(findings: seq<Finding>): (f: Finding)
    requires HasError(findings)
    ensures f.severity.Error? && f in findings
  {
    if findings[0].severity.Error? then findings[0]
    else
      assert exists i :: 0 <= i < |findings[1..]| && findings[1..][i].severity.Error? by {
        var i :| 0 <= i < |findings| && findings[i].severity.Error?;
        assert findings[1..][i - 1] == findings[i];
      }
      FirstError(findings[1..])
  }

  datatype Outcome = Outcome(
    axes: SemanticAxes,
    verdict: Verdict,
    findings: seq<Finding>,
    membersView: seq<Member>,
    materialization: Materialization)

  function Finish(findings: seq<Finding>, view: seq<Member>, materialization: Materialization,
          axes: SemanticAxes): Outcome {
    Outcome(axes, CompatVerdict(axes), findings, view, materialization)
  }

  function BytesOf(m: Member): nat {
    if m.kind.File? && m.actualSize.Some? then m.actualSize.value else 0
  }

  /** Bytes of the verified files of a member list. */
  function VerifiedBytes(members: seq<Member>): nat {
    if members == [] then 0
    else VerifiedBytes(members[..|members| - 1]) + BytesOf(members[|members| - 1])
  }

  predicate AllVerified(members: seq<Member>) {
    forall i :: 0 <= i < |members| ==> members[i].verification.Verified?
  }

  predicate DistinctPaths(members: seq<Member>) {
    forall i, j :: 0 <= i < j < |members| ==> members[i].canonicalPath != members[j].canonicalPath
  }

  /** Same members, whatever became of their verification. */
  predicate SamePlan(a: seq<Member>, b: seq<Member>) {
    |a| == |b| && forall i :: 0 <= i < |a| ==> a[i].canonicalPath == b[i].canonicalPath && a[i].kind == b[i].kind
  }

  function MadeEvent(m: Member, i: nat): Event {
    if m.kind.Directory? then DirectoryMade(i) else FileWritten(i)
  }

  /** What staging the first `k` members records. */
  function MadeEvents(members: seq<Member>, k: nat): (events: seq<Event>)
    requires k <= |members|
    ensures |events| == k
  {
    seq(k, i requires 0 <= i < k => MadeEvent(members[i], i))
  }

  function Opening(request: Request): seq<Event> {
    if request.retentionPath then [Opened, RetentionRecorded] else [Opened]
  }
}
