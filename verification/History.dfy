/** Scheduled-run history: collecting observation rows, and replaying their decisions from the rows alone. */
module History {
  import opened Prelude

  /** A point in time in whole microseconds. */
  type Time = int

  function Second(t: Time): int {
    t / 1_000_000
  }

  // ---- What a check looks at ----

  datatype Job = Job(id: int, name: string, status: string, conclusion: Option<string>)

  /** An evidence domain: its fingerprint and the names of its required jobs, each as often as it occurs. */
  datatype Domain = Domain(fingerprint: string, jobs: multiset<string>)

  /** A scheduled run as listed by the workflow history. */
  datatype ScheduledRun = ScheduledRun(
    id: int,
    headSha: string,
    createdAt: Time,
    attempt: int,
    status: string,
    conclusion: Option<string>)

  /** The first attempt of a run and its jobs. */
  datatype Attempt = Attempt(status: string, conclusion: Option<string>, jobs: seq<Job>)

  datatype Lookup = Present(domain: Domain) | ContractAbsent | Broken

  /** The service and the repository as a check sees them. */
  datatype Remote = Remote(domainOf: string -> Lookup, attemptOf: int -> Option<Attempt>)

  datatype Decision =
    | ContractNotPresent | DifferentEvidenceDomain | RerunExcluded | UnsuccessfulRun
    | MissingOrDuplicateRequiredJobs | UnsuccessfulRequiredJob | DuplicateCommit | Counted

  /** One observation row of the report. */
  datatype Row = Row(
    runId: int,
    commit: string,
    createdAt: Time,
    observedAt: Time,
    latestAttempt: int,
    checkedAttempt: Option<int>,
    missingContract: bool,
    originalConclusion: Option<string>,
    latestConclusion: Option<string>,
    fingerprint: Option<string>,
    decision: Decision,
    jobs: seq<Job>)

  function Names(jobs: seq<Job>): (names: seq<string>)
    ensures |names| == |jobs|
  {
    seq(|jobs|, i requires 0 <= i < |jobs| => jobs[i].name)
  }

  predicate JobFailed(job: Job) {
    job.status != "completed" || job.conclusion != Some("success")
  }

  predicate AnyJobFailed(jobs: seq<Job>) {
    exists i :: 0 <= i < |jobs| && JobFailed(jobs[i])
  }

  // ---- The active sequence ----

  predicate Resets(d: Decision) {
    !d.Counted? && !d.DuplicateCommit?
  }

  /** The counted rows after the last reset. */
  function Active(rows: seq<Row>): seq<Row> {
    if rows == [] then []
    else
      var last := rows[|rows| - 1];
      if Resets(last.decision) then []
      else if last.decision.Counted? then Active(rows[..|rows| - 1]) + [last]
      else Active(rows[..|rows| - 1])
  }

  /** Where the active sequence begins: just after the last reset. */
  function AfterReset(rows: seq<Row>): (p: nat)
    ensures p <= |rows|
    ensures forall i :: p <= i < |rows| ==> !Resets(rows[i].decision)
    ensures p > 0 ==> Resets(rows[p - 1].decision)
  {
    if rows == [] then 0
    else if Resets(rows[|rows| - 1].decision) then |rows|
    else AfterReset(rows[..|rows| - 1])
  }

  function CountedRows(rows: seq<Row>): seq<Row> {
    if rows == [] then []
    else CountedRows(rows[..|rows| - 1]) + (if rows[|rows| - 1].decision.Counted? then [rows[|rows| - 1]] else [])
  }

  /** The running sequence with its resets is what a look back from the end finds. */
  lemma {:induction false} ActiveIsCountedAfterReset(rows: seq<Row>)
    ensures Active(rows) == CountedRows(rows[AfterReset(rows)..])
  {
    if rows != [] {
      var front := rows[..|rows| - 1];
      ActiveIsCountedAfterReset(front);
      if !Resets(rows[|rows| - 1].decision) {
        var tail := rows[AfterReset(rows)..];
        assert tail[..|tail| - 1] == front[AfterReset(front)..];
      }
    }
  }

  function Commits(rows: seq<Row>): (commits: set<string>)
    ensures forall c :: c in commits <==> exists i :: 0 <= i < |rows| && rows[i].commit == c
  {
    set i | 0 <= i < |rows| :: rows[i].commit
  }

  predicate DistinctCommits(rows: seq<Row>) {
    forall i, j :: 0 <= i < j < |rows| ==> rows[i].commit != rows[j].commit
  }

  function Ids(rows: seq<Row>): (ids: seq<int>)
    ensures |ids| == |rows|
  {
    seq(|rows|, i requires 0 <= i < |rows| => rows[i].runId)
  }

  // ---- Clock ----

  datatype Cause = DeadlineExhausted | ClockStuck | RunPending | DomainUnreadable | AttemptUnreadable | InvalidRows

  datatype Failure = Incomplete(cause: Cause)

  /** Two clocks, and the readings taken from each. */
  class Clock {
    const monotonic: nat -> Time
    const utc: nat -> Time
    var ticks: seq<Time>
    var readings: seq<Time>

    constructor (monotonic: nat -> Time, utc: nat -> Time)
      ensures ticks == [] && readings == []
    {
      this.monotonic, this.utc, ticks, readings := monotonic, utc, [], [];
    }

    /** The last monotonic reading is at or past the deadline. */
    predicate Reached(deadline: Time)
      reads this
    {
      ticks != [] && ticks[|ticks| - 1] >= deadline
    }

    method Monotonic() returns (t: Time)
      modifies this`ticks
      ensures ticks == old(ticks) + [t]
    {
      t := monotonic(|ticks|);
      ticks := ticks + [t];
    }

    method Utc() returns (t: Time)
      modifies this`readings
      ensures readings == old(readings) + [t]
    {
      t := utc(|readings|);
      readings := readings + [t];
    }
  }

  /** Whether a reading falls in a later whole second than the previous observation. */
  predicate Later(previous: Option<Time>, t: Time) {
    previous.None? || Second(t) > Second(previous.value)
  }

  const POLLS: nat := 126
  const WAIT: Time := 1_250_000

  /** When polling stops, given the first monotonic reading. */
  function StopTime(start: Time, deadline: Option<Time>): Time {
    if deadline.Some? && deadline.value < start + WAIT then deadline.value else start + WAIT
  }

  /**
   `observe_after`: the first reading in a later whole second. It gives up only when a monotonic reading reached
   the deadline or the stop time, or after 126 readings.
   */
  method ObserveAfter(clock: Clock, previous: Option<Time>, deadline: Option<Time>) returns (r: Result<Time, Failure>)
    modifies clock
    ensures old(clock.readings) <= clock.readings && |clock.readings| <= |old(clock.readings)| + POLLS
    ensures r.Ok? ==> |clock.readings| > |old(clock.readings)|
                      && r.value == clock.readings[|clock.readings| - 1] && Later(previous, r.value)
    ensures forall k :: |old(clock.readings)| <= k < |clock.readings| - (if r.Ok? then 1 else 0) ==>
                          !Later(previous, clock.readings[k])
    ensures old(clock.ticks) < clock.ticks
    ensures r.Err? ==> var last := clock.ticks[|clock.ticks| - 1];
                       match r.error.cause
                       case DeadlineExhausted => deadline.Some? && clock.Reached(deadline.value)
                       case ClockStuck =>
                         || last >= StopTime(clock.ticks[|old(clock.ticks)|], deadline)
                         || |clock.readings| == |old(clock.readings)| + POLLS
                       case _ => false
  {
    hide Later, Second;
    ghost var first := |clock.ticks|;
    var start := clock.Monotonic();
    var stop := start + WAIT;
    if deadline.Some? && deadline.value < stop {
      stop := deadline.value;
    }
    for poll := 0 to POLLS
      invariant old(clock.readings) <= clock.readings && |clock.readings| == |old(clock.readings)| + poll
      invariant old(clock.ticks) < clock.ticks && clock.ticks[first] == start
      invariant forall k :: |old(clock.readings)| <= k < |clock.readings| ==> !Later(previous, clock.readings[k])
    {
      if deadline.Some? {
        var now := clock.Monotonic();
        if now >= deadline.value {
          return Err(Incomplete(DeadlineExhausted));
        }
      }
      var beforeRead := clock.Monotonic();
      if beforeRead >= stop {
        return Err(Incomplete(ClockStuck));
      }
      var observed := clock.Utc();
      if Later(previous, observed) {
        return Ok(observed);
      }
      var afterRead := clock.Monotonic();
      if stop - afterRead <= 0 {
        return Err(Incomplete(ClockStuck));
      }
    }
    return Err(Incomplete(ClockStuck));
  }
}
