/** `Collector.check` and `replay`: two folds over the same history that must decide alike. */
module HistoryReplay {
  import opened Prelude
  import opened History

  // ---- Collecting ----

  function Selected(jobs: seq<Job>, required: multiset<string>): (s: seq<Job>)
    ensures |s| <= |jobs|
  {
    if jobs == [] then []
    else Selected(jobs[..|jobs| - 1], required) + (if jobs[|jobs| - 1].name in required then [jobs[|jobs| - 1]] else [])
  }

  /** What the service's own records say of a run; nothing while it is still pending. */
  function CollectorDecision(run: ScheduledRun, attempt: Attempt, historical: Domain, current: Domain,
          commits: set<string>): Option<Decision> {
    var selected := Selected(attempt.jobs, historical.jobs);
    if historical.fingerprint != current.fingerprint then Some(DifferentEvidenceDomain)
    else if run.attempt != 1 then Some(RerunExcluded)
    else if run.status != "completed" || attempt.status != "completed" then None
    else if run.conclusion != Some("success") || attempt.conclusion != Some("success") then Some(UnsuccessfulRun)
    else if multiset(Names(selected)) != historical.jobs then Some(MissingOrDuplicateRequiredJobs)
    else if AnyJobFailed(selected) then Some(UnsuccessfulRequiredJob)
    else if run.headSha in commits then Some(DuplicateCommit)
    else Some(Counted)
  }

  function AbsentRow(run: ScheduledRun, observedAt: Time): Row {
    Row(run.id, run.headSha, run.createdAt, observedAt, run.attempt, None, true, None, None, None, ContractNotPresent,
        [])
  }

  function ObservedRow(run: ScheduledRun, attempt: Attempt, historical: Domain, observedAt: Time,
          decision: Decision): Row {
    Row(run.id, run.headSha, run.createdAt, observedAt, run.attempt, Some(1), false, attempt.conclusion, run.conclusion,
        Some(historical.fingerprint), decision, Selected(attempt.jobs, historical.jobs))
  }

  /** The row is what the records of this run say, given the rows before it. */
  predicate RowFor(row: Row, run: ScheduledRun, remote: Remote, current: Domain, earlier: seq<Row>) {
    match remote.domainOf(run.headSha)
    case ContractAbsent => row == AbsentRow(run, row.observedAt)
    case Broken => false
    case Present(historical) =>
      && remote.attemptOf(run.id).Some?
      && var attempt := remote.attemptOf(run.id).value;
         && row == ObservedRow(run, attempt, historical, row.observedAt, row.decision)
         && CollectorDecision(run, attempt, historical, current, Commits(Active(earlier))) == Some(row.decision)
  }

  predicate SecondsIncrease(rows: seq<Row>) {
    forall i :: 1 <= i < |rows| ==> Second(rows[i].observedAt) > Second(rows[i - 1].observedAt)
  }

  /** The rows of a whole history, one for each run. */
  predicate Collected(rows: seq<Row>, runs: seq<ScheduledRun>, remote: Remote, current: Domain) {
    && |rows| == |runs|
    && SecondsIncrease(rows)
    && forall i :: 0 <= i < |rows| ==> RowFor(rows[i], runs[i], remote, current, rows[..i])
  }

  const MINIMUM_COMMITS := 10

  datatype Report = Report(observations: seq<Row>, qualifying: seq<int>, eligible: bool)

  predicate Eligible(promotable: bool, qualifying: nat) {
    promotable && qualifying >= MINIMUM_COMMITS
  }

  method SelectJobs(jobs: seq<Job>, required: multiset<string>) returns (selected: seq<Job>)
    ensures selected == Selected(jobs, required)
  {
    selected := [];
    for i := 0 to |jobs|
      invariant selected == Selected(jobs[..i], required)
    {
      assert jobs[..i + 1][..i] == jobs[..i];
      if jobs[i].name in required {
        selected := selected + [jobs[i]];
      }
    }
    assert jobs[..|jobs|] == jobs;
  }

  method AnyFailed(jobs: seq<Job>) returns (any: bool)
    ensures any <==> AnyJobFailed(jobs)
  {
    for i := 0 to |jobs|
      invariant forall k :: 0 <= k < i ==> !JobFailed(jobs[k])
    {
      if jobs[i].status != "completed" || jobs[i].conclusion != Some("success") {
        assert JobFailed(jobs[i]);
        return true;
      }
    }
    return false;
  }

  /** The decision ladder of one run. */
  method Decide(run: ScheduledRun, attempt: Attempt, historical: Domain, current: Domain, commits: set<string>,
          selected: seq<Job>)
    returns (r: Result<Decision, Failure>)
    requires selected == Selected(attempt.jobs, historical.jobs)
    ensures r.Ok? <==> CollectorDecision(run, attempt, historical, current, commits).Some?
    ensures r.Err? ==> r.error.cause == RunPending
    ensures r.Ok? ==> CollectorDecision(run, attempt, historical, current, commits) == Some(r.value)
  {
    if historical.fingerprint != current.fingerprint {
      return Ok(DifferentEvidenceDomain);
    }
    if run.attempt != 1 {
      return Ok(RerunExcluded);
    }
    if run.status != "completed" || attempt.status != "completed" {
      return Err(Incomplete(RunPending));
    }
    if run.conclusion != Some("success") || attempt.conclusion != Some("success") {
      return Ok(UnsuccessfulRun);
    }
    if multiset(Names(selected)) != historical.jobs {
      return Ok(MissingOrDuplicateRequiredJobs);
    }
    var failed := AnyFailed(selected);
    if failed {
      return Ok(UnsuccessfulRequiredJob);
    }
    if run.headSha in commits {
      return Ok(DuplicateCommit);
    }
    return Ok(Counted);
  }

  /** Why no row can be made of a run: something is unreadable, or the run is still pending. */
  function Obstacle(run: ScheduledRun, remote: Remote, current: Domain): Option<Cause> {
    match remote.domainOf(run.headSha)
    case Broken => Some(DomainUnreadable)
    case ContractAbsent => None
    case Present(historical) =>
      var attempt := remote.attemptOf(run.id);
      if attempt.None? then Some(AttemptUnreadable)
      else if historical.fingerprint == current.fingerprint && run.attempt == 1
              && (run.status != "completed" || attempt.value.status != "completed") then Some(RunPending)
      else None
  }

  predicate IsClockFailure(cause: Cause) {
    cause == DeadlineExhausted || cause == ClockStuck
  }

  /** The row of one run. */
  method Observe(run: ScheduledRun, remote: Remote, current: Domain, commits: set<string>, clock: Clock,
          previous: Option<Time>, deadline: Option<Time>, ghost earlier: seq<Row>)
    returns (r: Result<Row, Failure>)
    requires commits == Commits(Active(earlier))
    modifies clock
    ensures r.Ok? ==> RowFor(r.value, run, remote, current, earlier) && Later(previous, r.value.observedAt)
    ensures r.Ok? ==> Obstacle(run, remote, current).None?
    ensures r.Err? ==> IsClockFailure(r.error.cause) || Obstacle(run, remote, current) == Some(r.error.cause)
    ensures r.Err? && r.error.cause == DeadlineExhausted ==> deadline.Some? && clock.Reached(deadline.value)
    ensures old(clock.ticks) <= clock.ticks
  {
    var lookup := remote.domainOf(run.headSha);
    if lookup.Broken? {
      return Err(Incomplete(DomainUnreadable));
    }
    if lookup.ContractAbsent? {
      var observedAt :- ObserveAfter(clock, previous, deadline);
      return Ok(AbsentRow(run, observedAt));
    }
    var attempt := remote.attemptOf(run.id);
    if attempt.None? {
      return Err(Incomplete(AttemptUnreadable));
    }
    var observedAt :- ObserveAfter(clock, previous, deadline);
    var selected := SelectJobs(attempt.value.jobs, lookup.domain.jobs);
    var decision :- Decide(run, attempt.value, lookup.domain, current, commits, selected);
    return Ok(ObservedRow(run, attempt.value, lookup.domain, observedAt, decision));
  }

  lemma ActiveAppend(rows: seq<Row>, row: Row)
    ensures Active(rows + [row]) ==
            if Resets(row.decision) then [] else if row.decision.Counted? then Active(rows) + [row] else Active(rows)
  {
    assert (rows + [row])[..|rows|] == rows;
  }

  lemma CommitsAppend(rows: seq<Row>, row: Row)
    ensures Commits(rows + [row]) == Commits(rows) + {row.commit}
  {
    var all := rows + [row];
    forall c | c in Commits(rows) ensures c in Commits(all) {
      var i :| 0 <= i < |rows| && rows[i].commit == c;
      assert all[i].commit == c;
    }
    assert all[|rows|].commit == row.commit;
  }

  lemma IdsAppend(rows: seq<Row>, row: Row)
    ensures Ids(rows + [row]) == Ids(rows) + [row.runId]
  {
  }

  lemma CollectedAppend(rows: seq<Row>, runs: seq<ScheduledRun>, remote: Remote, current: Domain, row: Row)
    requires |rows| < |runs| && Collected(rows, runs[..|rows|], remote, current)
    requires RowFor(row, runs[|rows|], remote, current, rows)
    requires rows != [] ==> Second(row.observedAt) > Second(rows[|rows| - 1].observedAt)
    ensures Collected(rows + [row], runs[..|rows| + 1], remote, current)
  {
    hide RowFor;
    var all, n := rows + [row], |rows|;
    forall i | 0 <= i <= n ensures RowFor(all[i], runs[..n + 1][i], remote, current, all[..i]) {
      assert all[..i] == rows[..i];
      if i == n { assert rows[..n] == rows; } else { assert runs[..n][i] == runs[i]; }
    }
  }

  /** The state a check keeps: the rows so far, with the ids and commits of their active sequence. */
  ghost predicate Checked(rows: seq<Row>, runs: seq<ScheduledRun>, remote: Remote, current: Domain, n: nat,
          sequence: seq<int>, commits: set<string>) {
    && n == |rows| <= |runs| && Collected(rows, runs[..n], remote, current)
    && sequence == Ids(Active(rows)) && commits == Commits(Active(rows))
    && forall k :: 0 <= k < n ==> Obstacle(runs[k], remote, current).None?
  }

  predicate FollowsLast(previous: Option<Time>, rows: seq<Row>) {
    previous == if rows == [] then None else Some(rows[|rows| - 1].observedAt)
  }

  function Continued(sequence: seq<int>, row: Row): seq<int> {
    if row.decision == Counted then sequence + [row.runId]
    else if row.decision == DuplicateCommit then sequence
    else []
  }

  function Remembered(commits: set<string>, row: Row): set<string> {
    if row.decision == Counted then commits + {row.commit}
    else if row.decision == DuplicateCommit then commits
    else {}
  }

  lemma CheckedStep(rows: seq<Row>, runs: seq<ScheduledRun>, remote: Remote, current: Domain, n: nat,
          sequence: seq<int>, commits: set<string>, row: Row, previous: Option<Time>)
    requires Checked(rows, runs, remote, current, n, sequence, commits) && n < |runs| && FollowsLast(previous, rows)
    requires RowFor(row, runs[n], remote, current, rows) && Later(previous, row.observedAt)
    requires Obstacle(runs[n], remote, current).None?
    ensures Checked(rows + [row], runs, remote, current, n + 1, Continued(sequence, row), Remembered(commits, row))
    ensures FollowsLast(Some(row.observedAt), rows + [row])
  {
    hide RowFor, Active, Collected, Obstacle;
    CollectedAppend(rows, runs, remote, current, row);
    ActiveAppend(rows, row);
    CommitsAppend(Active(rows), row);
    IdsAppend(Active(rows), row);
  }

  /** `within_deadline`. */
  method WithinDeadline(clock: Clock, deadline: Time) returns (ok: bool)
    modifies clock`ticks
    ensures |clock.ticks| == |old(clock.ticks)| + 1 && old(clock.ticks) < clock.ticks
    ensures ok <==> clock.ticks[|old(clock.ticks)|] < deadline
    ensures ok <==> !clock.Reached(deadline)
  {
    var now := clock.Monotonic();
    ok := now < deadline;
  }

  /** The rows of a check: one for every run, unless a clock fails or something stands in the way of a run. */
  method CheckRuns(runs: seq<ScheduledRun>, remote: Remote, current: Domain, clock: Clock, deadline: Time)
    returns (r: Result<(seq<Row>, seq<int>), Failure>)
    modifies clock
    ensures r.Ok? ==> Collected(r.value.0, runs, remote, current)
    ensures r.Ok? ==> r.value.1 == Ids(Active(r.value.0))
    ensures r.Ok? ==> forall run :: run in runs ==> Obstacle(run, remote, current).None?
    ensures r.Err? ==> IsClockFailure(r.error.cause)
                       || exists run :: run in runs && Obstacle(run, remote, current) == Some(r.error.cause)
    ensures r.Err? && r.error.cause == DeadlineExhausted ==> clock.Reached(deadline)
    ensures old(clock.ticks) <= clock.ticks
  {
    var rows: seq<Row> := [];
    var sequence: seq<int>, commits: set<string> := [], {};
    var previous: Option<Time> := None;
    for i := 0 to |runs|
      invariant Checked(rows, runs, remote, current, i, sequence, commits) && FollowsLast(previous, rows)
      invariant old(clock.ticks) <= clock.ticks
    {
      assert commits == Commits(Active(rows));
      hide *;
      var row := Observe(runs[i], remote, current, commits, clock, previous, Some(deadline), rows);
      if row.Err? {
        return Err(row.error);
      }
      CheckedStep(rows, runs, remote, current, i, sequence, commits, row.value, previous);
      sequence, commits := Continued(sequence, row.value), Remembered(commits, row.value);
      previous := Some(row.value.observedAt);
      rows := rows + [row.value];
    }
    assert runs[..|runs|] == runs;
    return Ok((rows, sequence));
  }

  /**
   `Collector.check`: every run gets its row, the qualifying ids are those of the active sequence, and a check
   that may be promoted is eligible from ten of them on.
   */
  method Check(runs: seq<ScheduledRun>, remote: Remote, current: Domain, promotable: bool, clock: Clock, deadline: Time)
    returns (r: Result<Report, Failure>)
    modifies clock
    ensures r.Ok? ==> Collected(r.value.observations, runs, remote, current)
    ensures r.Ok? ==> r.value.qualifying == Ids(Active(r.value.observations))
    ensures r.Ok? ==> (r.value.eligible <==> Eligible(promotable, |r.value.qualifying|))
    ensures old(clock.ticks) < clock.ticks
    ensures r.Ok? ==> clock.ticks[|old(clock.ticks)|] < deadline && !clock.Reached(deadline)
    ensures r.Ok? ==> forall run :: run in runs ==> Obstacle(run, remote, current).None?
    ensures r.Err? ==> IsClockFailure(r.error.cause)
                       || exists run :: run in runs && Obstacle(run, remote, current) == Some(r.error.cause)
    ensures r.Err? && r.error.cause == DeadlineExhausted ==> clock.Reached(deadline)
  {
    assert IsClockFailure(DeadlineExhausted);
    hide *;
    var early := WithinDeadline(clock, deadline);
    if !early {
      return Err(Incomplete(DeadlineExhausted));
    }
    var checked := CheckRuns(runs, remote, current, clock, deadline);
    if checked.Err? {
      return Err(checked.error);
    }
    var late := WithinDeadline(clock, deadline);
    if !late {
      return Err(Incomplete(DeadlineExhausted));
    }
    var (rows, sequence) := checked.value;
    return Ok(Report(rows, sequence, Eligible(promotable, |sequence|)));
  }

  /** The counted rows after the last reset come from distinct commits, so ten qualifying runs are ten commits. */
  lemma {:induction false} CollectedCommitsAreDistinct(
    rows: seq<Row>, runs: seq<ScheduledRun>, remote: Remote, current: Domain)
    requires Collected(rows, runs, remote, current)
    ensures DistinctCommits(Active(rows))
    decreases |rows|
  {
    hide Active, Commits, Selected, Names, AnyJobFailed;
    if rows == [] {
      ActiveOfNothing();
    } else {
      var n := |rows| - 1;
      var front, last := rows[..n], rows[n];
      forall i | 0 <= i < n ensures RowFor(front[i], runs[..n][i], remote, current, front[..i]) {
        assert front[..i] == rows[..i];
      }
      CollectedCommitsAreDistinct(front, runs[..n], remote, current);
      ActiveAppend(front, last);
      assert rows == front + [last];
    }
  }

  lemma ActiveOfNothing()
    ensures Active([]) == []
  {
  }

  // ---- Replaying ----

  /** What the row's own evidence says, given the commits already counted. */
  function Expected(row: Row, domain: Domain, commits: set<string>): Decision {
    if row.decision.ContractNotPresent? then ContractNotPresent
    else if row.fingerprint != Some(domain.fingerprint) then DifferentEvidenceDomain
    else if row.latestAttempt != 1 then RerunExcluded
    else if row.originalConclusion != Some("success") || row.latestConclusion != Some("success") then UnsuccessfulRun
    else if multiset(Names(row.jobs)) != domain.jobs then MissingOrDuplicateRequiredJobs
    else if AnyJobFailed(row.jobs) then UnsuccessfulRequiredJob
    else if row.commit in commits then DuplicateCommit
    else Counted
  }

  predicate JobsOk(jobs: seq<Job>) {
    && |jobs| <= 100
    && (forall i :: 0 <= i < |jobs| ==> jobs[i].id > 0)
    && forall i, j :: 0 <= i < j < |jobs| ==> jobs[i].id != jobs[j].id
  }

  /** `(created_at, run_id)` as a pair. */
  predicate CreatedBefore(t: Time, i: int, u: Time, j: int) {
    t < u || (t == u && i < j)
  }

  /** The row taken by itself. */
  predicate WellFormed(row: Row, started: Time, now: Time) {
    && row.runId > 0 && row.latestAttempt > 0
    && started <= row.observedAt <= now && row.createdAt <= row.observedAt
    && JobsOk(row.jobs)
    && (if row.decision.ContractNotPresent? then
          row.missingContract && row.checkedAttempt.None? && row.fingerprint.None? && row.jobs == []
        else
          row.fingerprint.Some? && row.checkedAttempt == Some(1))
  }

  /** The row after the row before it. */
  predicate Follows(row: Row, previous: Row) {
    && CreatedBefore(previous.createdAt, previous.runId, row.createdAt, row.runId)
    && Second(row.observedAt) > Second(previous.observedAt)
  }

  /** The row among all earlier rows. */
  predicate RowOk(row: Row, earlier: seq<Row>, domain: Domain, started: Time, now: Time) {
    && WellFormed(row, started, now)
    && row.runId !in IdSet(earlier)
    && (earlier != [] ==> Follows(row, earlier[|earlier| - 1]))
    && row.decision == Expected(row, domain, Commits(Active(earlier)))
  }

  predicate Acceptable(rows: seq<Row>, domain: Domain, started: Time, now: Time) {
    && |rows| <= 1000
    && forall i :: 0 <= i < |rows| ==> RowOk(rows[i], rows[..i], domain, started, now)
  }

  method CheckJobs(jobs: seq<Job>) returns (ok: bool)
    ensures ok <==> JobsOk(jobs)
  {
    if |jobs| > 100 {
      return false;
    }
    var ids: set<int> := {};
    for i := 0 to |jobs|
      invariant forall k :: 0 <= k < i ==> jobs[k].id > 0 && jobs[k].id in ids
      invariant forall id :: id in ids ==> exists k :: 0 <= k < i && jobs[k].id == id
      invariant forall j, k :: 0 <= j < k < i ==> jobs[j].id != jobs[k].id
    {
      if jobs[i].id <= 0 || jobs[i].id in ids {
        return false;
      }
      ids := ids + {jobs[i].id};
    }
    return true;
  }

  /** The checks of one row before its decision. */
  method CheckShape(row: Row, ids: set<int>, previous: Option<Row>, started: Time, now: Time) returns (ok: bool)
    ensures ok <==>
            WellFormed(row, started, now) && row.runId !in ids && (previous.Some? ==> Follows(row, previous.value))
  {
    if row.runId <= 0 || row.runId in ids {
      return false;
    }
    if row.latestAttempt <= 0 {
      return false;
    }
    if !(started <= row.observedAt <= now && row.createdAt <= row.observedAt) {
      return false;
    }
    if previous.Some? && !CreatedBefore(previous.value.createdAt, previous.value.runId, row.createdAt, row.runId) {
      return false;
    }
    if previous.Some? && Second(row.observedAt) <= Second(previous.value.observedAt) {
      return false;
    }
    var jobsOk := CheckJobs(row.jobs);
    if !jobsOk {
      return false;
    }
    if row.decision == ContractNotPresent {
      return row.missingContract && row.checkedAttempt.None? && row.fingerprint.None? && row.jobs == [];
    }
    return row.fingerprint.Some? && row.checkedAttempt == Some(1);
  }

  method Redecide(row: Row, domain: Domain, commits: set<string>) returns (expected: Decision)
    ensures expected == Expected(row, domain, commits)
  {
    if row.decision == ContractNotPresent {
      return ContractNotPresent;
    }
    if row.fingerprint != Some(domain.fingerprint) {
      return DifferentEvidenceDomain;
    }
    if row.latestAttempt != 1 {
      return RerunExcluded;
    }
    if row.originalConclusion != Some("success") || row.latestConclusion != Some("success") {
      return UnsuccessfulRun;
    }
    if multiset(Names(row.jobs)) != domain.jobs {
      return MissingOrDuplicateRequiredJobs;
    }
    var failed := AnyFailed(row.jobs);
    if failed {
      return UnsuccessfulRequiredJob;
    }
    if row.commit in commits {
      return DuplicateCommit;
    }
    return Counted;
  }

  function IdSet(rows: seq<Row>): (ids: set<int>)
    ensures forall id :: id in ids <==> exists i :: 0 <= i < |rows| && rows[i].runId == id
  {
    set i | 0 <= i < |rows| :: rows[i].runId
  }

  /** What the replay loop carries after `n` rows. */
  predicate Carried(rows: seq<Row>, n: nat, sequence: seq<Row>, commits: set<string>, ids: set<int>,
          previous: Option<Row>) {
    && n <= |rows|
    && sequence == Active(rows[..n]) && commits == Commits(sequence) && ids == IdSet(rows[..n])
    && previous == if n == 0 then None else Some(rows[n - 1])
  }

  predicate AcceptedSoFar(rows: seq<Row>, n: nat, domain: Domain, started: Time, now: Time) {
    n <= |rows| && forall i :: 0 <= i < n ==> RowOk(rows[i], rows[..i], domain, started, now)
  }

  lemma NothingYet(rows: seq<Row>, domain: Domain, started: Time, now: Time)
    ensures Carried(rows, 0, [], {}, {}, None) && AcceptedSoFar(rows, 0, domain, started, now)
  {
  }

  lemma EverythingRead(rows: seq<Row>, sequence: seq<Row>, commits: set<string>, ids: set<int>, previous: Option<Row>)
    requires Carried(rows, |rows|, sequence, commits, ids, previous)
    ensures sequence == Active(rows)
  {
    assert rows[..|rows|] == rows;
  }

  lemma AcceptedAll(rows: seq<Row>, domain: Domain, started: Time, now: Time)
    ensures Acceptable(rows, domain, started, now) <==>
            |rows| <= 1000 && AcceptedSoFar(rows, |rows|, domain, started, now)
  {
  }

  lemma AcceptedPrefix(rows: seq<Row>, n: nat, domain: Domain, started: Time, now: Time)
    requires n < |rows|
    ensures AcceptedSoFar(rows, n + 1, domain, started, now) <==>
            AcceptedSoFar(rows, n, domain, started, now) && RowOk(rows[n], rows[..n], domain, started, now)
    ensures !AcceptedSoFar(rows, n + 1, domain, started, now) ==> !AcceptedSoFar(rows, |rows|, domain, started, now)
  {
  }

  /** The two checks of the loop are the conditions on the row. */
  lemma RowOkMeans(rows: seq<Row>, n: nat, sequence: seq<Row>, commits: set<string>, ids: set<int>,
          previous: Option<Row>, domain: Domain, started: Time, now: Time)
    requires n < |rows| && Carried(rows, n, sequence, commits, ids, previous)
    ensures RowOk(rows[n], rows[..n], domain, started, now) <==>
            && WellFormed(rows[n], started, now) && rows[n].runId !in ids
            && (previous.Some? ==> Follows(rows[n], previous.value))
            && rows[n].decision == Expected(rows[n], domain, commits)
  {
    hide WellFormed, Follows, Expected, Active;
  }

  lemma CarriedStep(rows: seq<Row>, n: nat, sequence: seq<Row>, commits: set<string>, ids: set<int>,
          previous: Option<Row>)
    requires n < |rows| && Carried(rows, n, sequence, commits, ids, previous)
    ensures var row := rows[n]; var more := ids + {row.runId};
            && (row.decision == Counted ==>
                Carried(rows, n + 1, sequence + [row], commits + {row.commit}, more, Some(row)))
            && (row.decision == DuplicateCommit ==> Carried(rows, n + 1, sequence, commits, more, Some(row)))
            && (Resets(row.decision) ==> Carried(rows, n + 1, [], {}, more, Some(row)))
  {
    hide Active;
    assert rows[..n + 1] == rows[..n] + [rows[n]];
    ActiveAppend(rows[..n], rows[n]);
    CommitsAppend(sequence, rows[n]);
    forall id | id in ids ensures id in IdSet(rows[..n + 1]) {
      var k :| 0 <= k < n && rows[..n][k].runId == id;
      assert rows[..n + 1][k].runId == id;
    }
    assert rows[..n + 1][n].runId == rows[n].runId;
  }

  /** `replay`: accepts exactly the rows whose every decision follows from their evidence, and
      returns the active sequence. */
  method Replay(rows: seq<Row>, domain: Domain, started: Time, now: Time) returns (r: Result<seq<Row>, Failure>)
    ensures r.Ok? <==> Acceptable(rows, domain, started, now)
    ensures r.Ok? ==> r.value == Active(rows)
  {
    hide Acceptable, AcceptedSoFar, Carried, RowOk, WellFormed, Follows, Expected, Active;
    AcceptedAll(rows, domain, started, now);
    if |rows| > 1000 {
      return Err(Incomplete(InvalidRows));
    }
    var sequence: seq<Row>, commits: set<string>, ids: set<int> := [], {}, {};
    var previous: Option<Row> := None;
    NothingYet(rows, domain, started, now);
    for i := 0 to |rows|
      invariant AcceptedSoFar(rows, i, domain, started, now)
      invariant Carried(rows, i, sequence, commits, ids, previous)
    {
      var row := rows[i];
      AcceptedPrefix(rows, i, domain, started, now);
      RowOkMeans(rows, i, sequence, commits, ids, previous, domain, started, now);
      CarriedStep(rows, i, sequence, commits, ids, previous);
      var shape := CheckShape(row, ids, previous, started, now);
      if !shape {
        return Err(Incomplete(InvalidRows));
      }
      var expected := Redecide(row, domain, commits);
      if row.decision != expected {
        return Err(Incomplete(InvalidRows));
      }
      if expected == Counted {
        sequence := sequence + [row];
        commits := commits + {row.commit};
      } else if expected != DuplicateCommit {
        sequence, commits := [], {};
      }
      ids := ids + {row.runId};
      previous := Some(row);
    }
    EverythingRead(rows, sequence, commits, ids, previous);
    return Ok(sequence);
  }

  // ---- Agreement ----

  lemma CountedIsNew(row: Row, earlier: seq<Row>, domain: Domain, started: Time, now: Time)
    requires RowOk(row, earlier, domain, started, now) && row.decision.Counted?
    ensures row.commit !in Commits(Active(earlier))
  {
    hide WellFormed, Follows, Active, Commits;
  }

  lemma AcceptableFront(rows: seq<Row>, domain: Domain, started: Time, now: Time)
    requires Acceptable(rows, domain, started, now) && rows != []
    ensures Acceptable(rows[..|rows| - 1], domain, started, now)
    ensures RowOk(rows[|rows| - 1], rows[..|rows| - 1], domain, started, now)
  {
    hide RowOk;
    var front := rows[..|rows| - 1];
    forall i | 0 <= i < |front| ensures RowOk(front[i], front[..i], domain, started, now) {
      assert front[..i] == rows[..i];
    }
  }

  /** The counted rows of an accepted history have pairwise distinct commits. */
  lemma {:induction false} ActiveCommitsAreDistinct(rows: seq<Row>, domain: Domain, started: Time, now: Time)
    requires Acceptable(rows, domain, started, now)
    ensures DistinctCommits(Active(rows))
    decreases |rows|
  {
    hide Acceptable, RowOk;
    if rows != [] {
      AcceptableFront(rows, domain, started, now);
      var front, last := rows[..|rows| - 1], rows[|rows| - 1];
      ActiveCommitsAreDistinct(front, domain, started, now);
      if last.decision.Counted? { CountedIsNew(last, front, domain, started, now); }
    }
  }

  /** What the workflow history guarantees of the runs it lists. */
  predicate RunsListed(runs: seq<ScheduledRun>) {
    && |runs| <= 1000
    && (forall i :: 0 <= i < |runs| ==> runs[i].id > 0 && runs[i].attempt > 0)
    && (forall i, j :: 0 <= i < j < |runs| ==> runs[i].id != runs[j].id)
    && (forall i :: 1 <= i < |runs| ==>
        CreatedBefore(runs[i - 1].createdAt, runs[i - 1].id, runs[i].createdAt, runs[i].id))
  }

  /** What the attempt records guarantee of their jobs. */
  ghost predicate JobsListed(remote: Remote) {
    forall id :: remote.attemptOf(id).Some? ==> JobsOk(remote.attemptOf(id).value.jobs)
  }

  /** A fingerprint covers the required jobs. */
  ghost predicate FingerprintsIdentify(remote: Remote, current: Domain) {
    forall sha :: remote.domainOf(sha).Present? && remote.domainOf(sha).domain.fingerprint == current.fingerprint ==>
      remote.domainOf(sha).domain.jobs == current.jobs
  }

  /** Every observation was made after the report started, after its run was created, and before the replay. */
  predicate ClocksAgree(rows: seq<Row>, started: Time, now: Time) {
    forall i :: 0 <= i < |rows| ==> started <= rows[i].observedAt <= now && rows[i].createdAt <= rows[i].observedAt
  }

  /** Every job kept was listed, in the listed order. */
  lemma {:induction false} SelectedJobsAreListed(jobs: seq<Job>, required: multiset<string>)
    requires JobsOk(jobs)
    ensures JobsOk(Selected(jobs, required))
    ensures forall job :: job in Selected(jobs, required) ==> job in jobs
  {
    if jobs != [] {
      var front, last := jobs[..|jobs| - 1], jobs[|jobs| - 1];
      SelectedJobsAreListed(front, required);
      assert forall job :: job in front ==> job.id != last.id;
      var kept := Selected(front, required);
      assert forall i :: 0 <= i < |kept| ==> kept[i] in front;
    }
  }

  /** The two ladders decide alike on a row made from the records. */
  lemma LaddersAgree(row: Row, run: ScheduledRun, remote: Remote, current: Domain, earlier: seq<Row>)
    requires RowFor(row, run, remote, current, earlier) && FingerprintsIdentify(remote, current)
    ensures row.decision == Expected(row, current, Commits(Active(earlier)))
  {
    hide Active, Commits, Selected;
    var found := remote.domainOf(run.headSha);
    assert found.Present? && found.domain.fingerprint == current.fingerprint ==> found.domain.jobs == current.jobs;
  }

  lemma RowIsWellFormed(row: Row, run: ScheduledRun, remote: Remote, current: Domain, earlier: seq<Row>, started: Time,
          now: Time)
    requires RowFor(row, run, remote, current, earlier) && JobsListed(remote)
    requires run.id > 0 && run.attempt > 0
    requires started <= row.observedAt <= now && row.createdAt <= row.observedAt
    ensures WellFormed(row, started, now)
    ensures row.runId == run.id && row.createdAt == run.createdAt
  {
    hide Active, Commits, Selected, Names, AnyJobFailed;
    if remote.domainOf(run.headSha).Present? {
      SelectedJobsAreListed(remote.attemptOf(run.id).value.jobs, remote.domainOf(run.headSha).domain.jobs);
    }
  }

  lemma AcceptedClocks(rows: seq<Row>, domain: Domain, started: Time, now: Time)
    requires Acceptable(rows, domain, started, now)
    ensures ClocksAgree(rows, started, now)
  {
    hide Expected, JobsOk, Active;
    forall i | 0 <= i < |rows|
      ensures started <= rows[i].observedAt <= now && rows[i].createdAt <= rows[i].observedAt
    {
      assert RowOk(rows[i], rows[..i], domain, started, now);
    }
  }

  lemma AgreeingRowsReplay(rows: seq<Row>, runs: seq<ScheduledRun>, remote: Remote, current: Domain, started: Time,
          now: Time)
    requires Collected(rows, runs, remote, current)
    requires RunsListed(runs) && JobsListed(remote) && FingerprintsIdentify(remote, current)
    requires ClocksAgree(rows, started, now)
    ensures Acceptable(rows, current, started, now)
  {
    hide RowFor, WellFormed, Expected, Active, JobsListed, FingerprintsIdentify;
    forall i | 0 <= i < |rows|
      ensures rows[i].runId == runs[i].id && rows[i].createdAt == runs[i].createdAt
      ensures WellFormed(rows[i], started, now)
    {
      RowIsWellFormed(rows[i], runs[i], remote, current, rows[..i], started, now);
    }
    forall i | 0 <= i < |rows| ensures RowOk(rows[i], rows[..i], current, started, now) {
      LaddersAgree(rows[i], runs[i], remote, current, rows[..i]);
      assert forall k :: 0 <= k < i ==> rows[..i][k].runId == runs[k].id;
      if i > 0 { assert rows[..i][i - 1] == rows[i - 1]; }
    }
  }

  /** Of the row lists that completed checks emit, replay accepts exactly those whose clocks agree. */
  lemma CollectedRowsReplay(rows: seq<Row>, runs: seq<ScheduledRun>, remote: Remote, current: Domain, started: Time,
          now: Time)
    requires Collected(rows, runs, remote, current)
    requires RunsListed(runs) && JobsListed(remote) && FingerprintsIdentify(remote, current)
    ensures Acceptable(rows, current, started, now) <==> ClocksAgree(rows, started, now)
  {
    if Acceptable(rows, current, started, now) { AcceptedClocks(rows, current, started, now); }
    if ClocksAgree(rows, started, now) { AgreeingRowsReplay(rows, runs, remote, current, started, now); }
  }

  /** A run created after its observation: the check emits its row and replay refuses it. */
  lemma BackwardClock()
    returns (rows: seq<Row>, runs: seq<ScheduledRun>, remote: Remote, current: Domain, started: Time, now: Time)
    ensures Collected(rows, runs, remote, current)
    ensures RunsListed(runs) && JobsListed(remote) && FingerprintsIdentify(remote, current)
    ensures !Acceptable(rows, current, started, now)
  {
    var run := ScheduledRun(1, "a", 10, 1, "completed", None);
    runs, rows := [run], [AbsentRow(run, 5)];
    remote, current := Remote(_ => ContractAbsent, _ => None), Domain("", multiset{});
    started, now := 0, 20;
    assert rows[0].createdAt > rows[0].observedAt;
    CollectedRowsReplay(rows, runs, remote, current, started, now);
  }

  /** A check followed by a replay of its rows: accepted, with the same qualifying runs. */
  method CheckThenReplay(runs: seq<ScheduledRun>, remote: Remote, current: Domain, promotable: bool, clock: Clock,
          deadline: Time, started: Time, now: Time)
    returns (report: Result<Report, Failure>, replayed: Result<seq<Row>, Failure>)
    modifies clock
    ensures report.Ok? && RunsListed(runs) && JobsListed(remote) && FingerprintsIdentify(remote, current) ==>
              (replayed.Ok? <==> ClocksAgree(report.value.observations, started, now))
    ensures report.Ok? && replayed.Ok? ==>
              Ids(replayed.value) == report.value.qualifying && DistinctCommits(replayed.value)
    ensures report.Ok? && replayed.Ok? ==> (report.value.eligible <==> Eligible(promotable, |replayed.value|))
  {
    hide *;
    report := Check(runs, remote, current, promotable, clock, deadline);
    if report.Err? {
      return report, Err(report.error);
    }
    var rows := report.value.observations;
    replayed := Replay(rows, current, started, now);
    if RunsListed(runs) && JobsListed(remote) && FingerprintsIdentify(remote, current) {
      CollectedRowsReplay(rows, runs, remote, current, started, now);
    }
    if replayed.Ok? {
      ActiveCommitsAreDistinct(rows, current, started, now);
    }
  }
}
