/** The run protocol: scheduled firings, the queue, workers, stops and the housekeeping jobs
  (vulnerabilities/tasks.py and vulnerabilities/schedules.py) as one step system.

  The question is whether a pipeline can ever have two live runs.  The answer is exact: never,
  provided six things hold, and if any one of them fails there is a run of the system that
  ends with two. */
module RunProtocol {
  import opened Options
  import opened PipelineRuns

  datatype Run = Run(pipeline: nat, row: RunRow)

  /** The database and the queue server.  Runs are numbered in order of creation, and the
    number is the run id. */
  datatype Db = Db(runs: seq<Run>, active: set<nat>, queue: set<nat>, jobs: map<nat, Job>)

  function JobOf(db: Db, r: nat): Option<Job> {
    if r in db.jobs then Some(db.jobs[r]) else None
  }

  function WithRow(db: Db, r: nat, row: RunRow): Db
    requires r < |db.runs|
  {
    db.(runs := db.runs[r := db.runs[r].(row := row)])
  }

  /** `latest_run`: the newest run of a pipeline among the first `n`. */
  function LatestBelow(runs: seq<Run>, p: nat, n: nat): (r: Option<nat>)
    requires n <= |runs|
    ensures r.Some? ==> r.value < n && runs[r.value].pipeline == p
    ensures r.Some? ==> forall i :: r.value < i < n ==> runs[i].pipeline != p
    ensures r.None? ==> forall i :: 0 <= i < n ==> runs[i].pipeline != p
  {
    if n == 0 then None
    else if runs[n - 1].pipeline == p then Some(n - 1)
    else LatestBelow(runs, p, n - 1)
  }

  function Latest(db: Db, p: nat): Option<nat> {
    LatestBelow(db.runs, p, |db.runs|)
  }

  // ----- the operations of the code

  /** `enqueue_run`. */
  function Enqueued(db: Db, r: nat): Db {
    db.(queue := db.queue + {r}, jobs := db.jobs[r := Job(JobQueued, None)])
  }

  function Created(db: Db, p: nat): Db {
    Enqueued(db.(runs := db.runs + [Run(p, FRESH)]), |db.runs|)
  }

  /** `PipelineSchedule.status`: a disabled schedule reports that and nothing else. */
  function ScheduleStatus(db: Db, p: nat): (Option<Status>, Db) {
    if p !in db.active then (Some(Disabled), db)
    else
      match Latest(db, p)
      case None => (None, db)
      case Some(r) =>
        var (s, row) := ReadStatus(db.runs[r].row, JobOf(db, r));
        (Some(s), WithRow(db, r, row))
  }

  predicate HoldsBack(s: Option<Status>) {
    s == Some(Running) || s == Some(Queued)
  }

  /** `enqueue_pipeline`, when nothing comes between its statements. */
  function EnqueuePipeline(db: Db, p: nat): Db {
    var (s, read) := ScheduleStatus(db, p);
    if HoldsBack(s) then read else Created(read, p)
  }

  /** `stop_run` on run `r`; `found` is whether the queue recognises run ids. */
  function StopOne(found: bool, db: Db, r: nat, now: nat, accepted: bool): (Db, bool)
    requires r < |db.runs|
  {
    var stop := StopRow(db.runs[r].row, JobOf(db, r), now, accepted);
    (WithRow(db, r, stop.row).(
       queue := if stop.dequeued && found then db.queue - {r} else db.queue,
       jobs := if stop.jobDeleted then db.jobs - {r} else db.jobs), stop.raised)
  }

  /** A stop touches one run; its id leaves the queue exactly if it was queued and ids are
    recognised, its job goes exactly if it took the command. */
  lemma StopTouchesExactly(found: bool, db: Db, r: nat, now: nat, accepted: bool)
    requires r < |db.runs|
    ensures var (after, raised) := StopOne(found, db, r, now, accepted);
            var job := if r in db.jobs then Some(db.jobs[r]) else None;
            var was := ReadStatus(db.runs[r].row, job).0;
            && after.active == db.active && |after.runs| == |db.runs|
            && (forall i :: 0 <= i < |db.runs| && i != r ==> after.runs[i] == db.runs[i])
            && after.runs[r].pipeline == db.runs[r].pipeline
            && after.queue == (if was == Queued && found then db.queue - {r} else db.queue)
            && after.jobs == (if was != Queued && db.runs[r].row.exitcode != Some(0) && accepted
                                 && job.Some? && job.value.status != JobFailed
                              then db.jobs - {r} else db.jobs)
            && (raised <==> StopRefused(db.runs[r].row, job, accepted))
  {
  }

  predicate Unfinished(row: RunRow) {
    row.startDate.Some? && (row.endDate.None? || row.exitcode.None?)
  }

  /** `mark_stale_runs` over the runs below `n`, newest first; a refusal ends it. */
  function MarkStale(found: bool, db: Db, n: nat, now: nat, accepted: set<nat>): (r: (Db, bool))
    requires n <= |db.runs|
    ensures |r.0.runs| == |db.runs|
    decreases n
  {
    if n == 0 then (db, false)
    else if Unfinished(db.runs[n - 1].row) then
      var (next, raised) := StopOne(found, db, n - 1, now, n - 1 in accepted);
      if raised then (next, true) else MarkStale(found, next, n - 1, now, accepted)
    else MarkStale(found, db, n - 1, now, accepted)
  }

  /** `requeue_missing_jobs` over the runs below `n`, newest first. */
  function RequeueMissing(found: bool, db: Db, n: nat, now: nat, accepted: set<nat>): (r: (Db, bool))
    requires n <= |db.runs|
    ensures |r.0.runs| == |db.runs|
    decreases n
  {
    if n == 0 then (db, false)
    else
      var r := n - 1;
      if db.runs[r].row.startDate.None? && !(found && r in db.queue) then
        if Latest(db, db.runs[r].pipeline) == Some(r) then
          RequeueMissing(found, Enqueued(db, r), r, now, accepted)
        else
          var (next, raised) := StopOne(found, db, r, now, r in accepted);
          if raised then (next, true) else RequeueMissing(found, next, r, now, accepted)
      else RequeueMissing(found, db, r, now, accepted)
  }

  // ----- the step system

  /** `decided`: firings that have read the status and are about to create a run of the
    pipeline; `unqueued`: runs created by a firing that has not queued them yet; `picked`: taken
    off the queue by a worker that has not reached `set_run_started` yet; `executing`: past it. */
  datatype Sys = Sys(db: Db, picked: set<nat>, executing: set<nat>, decided: multiset<nat>, unqueued: set<nat>)

  /** What may happen.

    - `idsFound`: the queue recognises run ids.
    - `stopQueued`: a run can be stopped while it is in the queue.
    - `stopUnqueued`: a run can be stopped after it was created and before it is queued.
    - `stopPicked`: a run can be stopped after a worker picked it and before it is started.
    - `fireInactive`: the scheduled job fires for a schedule that is not active.
    - `requeue`: `requeue_missing_jobs` runs.
    - `overlap`: a firing can read the status while another firing of the pipeline has read it and
      not created its run. */
  datatype Config = Config(idsFound: bool, stopQueued: bool, stopUnqueued: bool, stopPicked: bool,
                           fireInactive: bool, requeue: bool, overlap: bool) {
    predicate Safe() {
      && (idsFound || !stopQueued)
      && !stopUnqueued && !stopPicked && !fireInactive && !requeue && !overlap
    }
  }

  datatype Step =
    | SetActive(p: nat, on: bool)
    | Read(p: nat)                             // a firing reads the status of the schedule
    | Create(p: nat)                           // and, if nothing holds it back, creates a run
    | Enqueue(r: nat)                          // and queues it
    | GiveUp(p: nat)                           // a firing dies before it creates its run
    | Lose(r: nat)                             // or before it queues it
    | Pick(r: nat)
    | Begin(r: nat, at: nat)
    | Finish(r: nat, ok: bool, at: nat, runOnce: bool, output: string)
    | Failed(r: nat, at: nat, output: string, excInfo: string)     // the failure callback `set_run_failure`
    | Die(r: nat, endedAt: Option<nat>, excInfo: string)           // the worker dies without a callback
    | JobChange(r: nat, job: Option<Job>)      // expiry and other bookkeeping of the server
    | StopStep(r: nat, now: nat, accepted: bool)
    | MarkStaleStep(now: nat, takers: set<nat>)
    | RequeueStep(now: nat, takers: set<nat>)

  predicate MayStop(c: Config, s: Sys, r: nat) {
    && (r in s.db.queue ==> c.stopQueued)
    && (r in s.unqueued ==> c.stopUnqueued)
    && (r in s.picked ==> c.stopPicked)
  }

  /** A step that is not enabled changes nothing. */
  function Next(c: Config, s: Sys, step: Step): Sys {
    match step
    case SetActive(p, on) =>
      s.(db := s.db.(active := if on then s.db.active + {p} else s.db.active - {p}))
    case Read(p) =>
      if (p in s.db.active || c.fireInactive) && (p !in s.decided || c.overlap) then
        var (status, read) := ScheduleStatus(s.db, p);
        s.(db := read, decided := if HoldsBack(status) then s.decided else s.decided + multiset{p})
      else s
    case Create(p) =>
      if p in s.decided then
        s.(db := s.db.(runs := s.db.runs + [Run(p, FRESH)]), decided := s.decided - multiset{p},
           unqueued := s.unqueued + {|s.db.runs|})
      else s
    case Enqueue(r) =>
      if r in s.unqueued then s.(db := Enqueued(s.db, r), unqueued := s.unqueued - {r}) else s
    case GiveUp(p) => s.(decided := s.decided - multiset{p})
    case Lose(r) => s.(unqueued := s.unqueued - {r})
    case Pick(r) =>
      if r in s.db.queue && r < |s.db.runs| then
        s.(db := s.db.(queue := s.db.queue - {r}, jobs := s.db.jobs[r := Job(JobStarted, None)]),
           picked := s.picked + {r})
      else s
    case Begin(r, at) =>
      if r in s.picked && r < |s.db.runs| then
        s.(db := WithRow(s.db, r, Started(s.db.runs[r].row, at)),
           picked := s.picked - {r}, executing := s.executing + {r})
      else s
    case Finish(r, ok, at, runOnce, output) =>
      if r in s.executing && r < |s.db.runs| then
        var db := WithRow(s.db, r, Ended(s.db.runs[r].row, if ok then 0 else 1, output, at));
        s.(db := if runOnce then db.(active := db.active - {db.runs[r].pipeline}) else db,
           executing := s.executing - {r})
      else s
    case Failed(r, at, output, excInfo) =>
      if r in s.picked + s.executing && r < |s.db.runs| then
        s.(db := WithRow(s.db, r, Ended(s.db.runs[r].row, 1, output, at))
           .(jobs := s.db.jobs[r := Job(JobFailed, Some(at), excInfo)]),
           picked := s.picked - {r}, executing := s.executing - {r})
      else s
    case Die(r, endedAt, excInfo) =>
      if r in s.picked + s.executing && r < |s.db.runs| then
        s.(db := s.db.(jobs := s.db.jobs[r := Job(JobFailed, endedAt, excInfo)]),
           picked := s.picked - {r}, executing := s.executing - {r})
      else s
    case JobChange(r, job) =>
      if r >= |s.db.runs| || (job.Some? && job.value.status == JobFailed) then s
      else s.(db := s.db.(jobs := if job.Some? then s.db.jobs[r := job.value] else s.db.jobs - {r}))
    case StopStep(r, now, accepted) =>
      if r < |s.db.runs| && MayStop(c, s, r) then
        s.(db := StopOne(c.idsFound, s.db, r, now, accepted).0)
      else s
    case MarkStaleStep(now, accepted) =>
      s.(db := MarkStale(c.idsFound, s.db, |s.db.runs|, now, accepted).0)
    case RequeueStep(now, accepted) =>
      if c.requeue then s.(db := RequeueMissing(c.idsFound, s.db, |s.db.runs|, now, accepted).0) else s
  }

  /** No firing is under way. */
  function Quiet(db: Db, picked: set<nat>): Sys {
    Sys(db, picked, {}, multiset{}, {})
  }

  const EMPTY := Quiet(Db([], {}, {}, map[]), {})

  function RunAll(c: Config, steps: seq<Step>): Sys {
    if steps == [] then EMPTY else Next(c, RunAll(c, steps[..|steps| - 1]), steps[|steps| - 1])
  }

  function Seen(s: Sys, r: nat): Status
    requires r < |s.db.runs|
  {
    ReadStatus(s.db.runs[r].row, JobOf(s.db, r)).0
  }

  /** What a reader of `status` sees once a run is over: the exit code decides, and a run-once
    pipeline is inactive. */
  lemma FinishSeen(c: Config, s: Sys, r: nat, ok: bool, at: nat, runOnce: bool, output: string)
    requires r < |s.db.runs| && r in s.executing
    ensures var t := Next(c, s, Finish(r, ok, at, runOnce, output));
            && |t.db.runs| == |s.db.runs| && Seen(t, r) == (if ok then Success else Failure)
            && t.picked == s.picked && t.executing == s.executing - {r}
            && t.db.active == if runOnce then s.db.active - {s.db.runs[r].pipeline} else s.db.active
  {
  }

  /** A started run is seen running unless its job is on record as killed. */
  lemma StartSeen(c: Config, s: Sys, r: nat, at: nat)
    requires r < |s.db.runs| && r in s.picked
    ensures var t := Next(c, s, Begin(r, at));
            && |t.db.runs| == |s.db.runs| && t.picked == s.picked - {r} && t.executing == s.executing + {r}
            && Seen(t, r) == if KilledOutside(JobOf(s.db, r)) then Failure else Running
  {
  }

  /** A failed run is seen failed, started or not. */
  lemma FailureSeen(c: Config, s: Sys, r: nat, at: nat, output: string, excInfo: string)
    requires r < |s.db.runs| && r in s.picked + s.executing
    ensures var t := Next(c, s, Failed(r, at, output, excInfo));
            && |t.db.runs| == |s.db.runs| && t.picked == s.picked - {r} && t.executing == s.executing - {r}
            && Seen(t, r) == Failure
  {
  }

  /** A death is seen exactly when it is on record, until the server forgets it. */
  lemma DeathSeen(c: Config, s: Sys, r: nat, endedAt: Option<nat>, excInfo: string)
    requires r < |s.db.runs| && r in s.picked + s.executing && s.db.runs[r].row.exitcode.None?
    ensures var t, row := Next(c, s, Die(r, endedAt, excInfo)), s.db.runs[r].row;
            && |t.db.runs| == |s.db.runs| && t.picked == s.picked - {r} && t.executing == s.executing - {r}
            && Seen(t, r) == (if endedAt.Some? then Failure else if row.startDate.Some? then Running else Queued)
  {
  }

  /** The steps outside the workers: the server changes a job into any other, except into a failed
    one; a schedule is switched on or off; a firing gives up once. */
  lemma OutsideSteps(c: Config, s: Sys, r: nat, job: Option<Job>, p: nat, on: bool)
    requires r < |s.db.runs|
    ensures JobOf(Next(c, s, JobChange(r, job)).db, r)
         == if job.Some? && job.value.status == JobFailed then JobOf(s.db, r) else job
    ensures forall q :: q in Next(c, s, SetActive(p, on)).db.active <==> if q == p then on else q in s.db.active
    ensures p in s.decided ==> Next(c, s, GiveUp(p)).decided[p] == s.decided[p] - 1
  {
  }

  // ----- safety

  /** QUEUED or RUNNING, as a reader of `status` would see it. */
  predicate Live(db: Db, r: nat)
    requires r < |db.runs|
  {
    var s := ReadStatus(db.runs[r].row, JobOf(db, r)).0;
    s == Queued || s == Running
  }

  /** A live run is the newest of its pipeline; so a pipeline has at most one. */
  ghost predicate LiveIsNewest(db: Db) {
    forall i, j ::
      0 <= i < |db.runs| && 0 <= j < |db.runs| && db.runs[i].pipeline == db.runs[j].pipeline && Live(db, i) ==>
        j <= i
  }

  ghost predicate QueueHoldsQueued(db: Db) {
    forall r :: r in db.queue ==> r < |db.runs| && ReadStatus(db.runs[r].row, JobOf(db, r)).0 == Queued
  }

  ghost predicate Good(db: Db) {
    && LiveIsNewest(db)
    && QueueHoldsQueued(db)
    && forall r :: 0 <= r < |db.runs| ==> DatesAgree(db.runs[r].row)
  }

  /** Never started and never ended. */
  predicate Untouched(row: RunRow) {
    row.startDate.None? && row.exitcode.None? && row.endDate.None?
  }

  predicate WorkerCode(row: RunRow) {
    row.exitcode.Some? ==> row.exitcode.value >= 0
  }

  /** `r` waits: created and not queued, in the queue, or picked and not begun. */
  ghost predicate Waiting(s: Sys, r: nat) {
    r in s.db.queue || r in s.picked || r in s.unqueued
  }

  /** A firing that has decided to create a run of `p` does so alone, and every run of `p` has
    ended. */
  ghost predicate MayCreate(s: Sys, p: nat) {
    && s.decided[p] <= 1
    && (p in s.decided ==>
          forall i :: 0 <= i < |s.db.runs| && s.db.runs[i].pipeline == p ==> s.db.runs[i].row.exitcode.Some?)
  }

  /** The inductive invariant. */
  ghost predicate Inv(s: Sys) {
    var runs := s.db.runs;
    && (forall i, j :: 0 <= i < j < |runs| && runs[i].pipeline == runs[j].pipeline ==> runs[i].row.exitcode.Some?)
    && (forall i :: 0 <= i < |runs| ==> DatesAgree(runs[i].row) && WorkerCode(runs[i].row))
    && (forall r: nat :: Waiting(s, r) ==> r < |runs| && Untouched(runs[r].row) && !KilledOutside(JobOf(s.db, r)))
    && (forall r :: r in s.executing || r in s.db.jobs ==> r < |runs|)
    && (forall p :: MayCreate(s, p))
    && Apart(s)
  }

  ghost predicate Apart(s: Sys) {
    && s.picked !! s.db.queue && s.executing !! s.db.queue && s.executing !! s.picked
    && s.unqueued !! s.db.queue && s.unqueued !! s.picked && s.unqueued !! s.executing
  }

  lemma InvIsGood(s: Sys)
    requires Inv(s)
    ensures Good(s.db)
  {
    forall i, j | 0 <= i < |s.db.runs| && 0 <= j < |s.db.runs|
                  && s.db.runs[i].pipeline == s.db.runs[j].pipeline && Live(s.db, i)
      ensures j <= i
    {
      assert WorkerCode(s.db.runs[i].row);
    }
    forall r | r in s.db.queue
      ensures r < |s.db.runs| && ReadStatus(s.db.runs[r].row, JobOf(s.db, r)).0 == Queued
    {
      assert Waiting(s, r);
    }
  }

  /** Rewriting one row: what is owed for the invariant to survive. */
  predicate RowStep(before: RunRow, after: RunRow) {
    && DatesAgree(after) && WorkerCode(after)
    && (before.exitcode.Some? ==> after.exitcode.Some?)
  }

  lemma RowStepKeepsInv(s: Sys, t: Sys, r: nat, row: RunRow)
    requires Inv(s) && r < |s.db.runs| && RowStep(s.db.runs[r].row, row)
    requires t.db.runs == s.db.runs[r := s.db.runs[r].(row := row)]
    requires forall x :: Waiting(t, x) ==> Waiting(s, x)
    requires forall x :: Waiting(t, x) ==> !KilledOutside(JobOf(t.db, x))
    requires Waiting(t, r) ==> Untouched(row)
    requires Apart(t) && t.executing <= s.executing + {r} && t.decided == s.decided
    requires t.db.jobs.Keys <= s.db.jobs.Keys + {r}
    ensures Inv(t)
  {
    forall p | true
      ensures MayCreate(t, p)
    {
      assert MayCreate(s, p);
    }
  }

  /** Reading the status decides for a new run only when every run of the pipeline has ended. */
  lemma ReadKeepsInv(c: Config, s: Sys, p: nat)
    requires Inv(s) && p in s.db.active && p !in s.decided
    ensures Inv(Next(c, s, Read(p)))
  {
    var (st, read) := ScheduleStatus(s.db, p);
    var latest := Latest(s.db, p);
    var mid := s.(db := read);
    if latest.Some? {
      var r := latest.value;
      var row := ReadStatus(s.db.runs[r].row, JobOf(s.db, r)).1;
      LifeCycleKeepsDates(s.db.runs[r].row, JobOf(s.db, r), 0, true, 0);
      RowStepKeepsInv(s, mid, r, row);
    }
    var t := Next(c, s, Read(p));
    forall x | Waiting(t, x)
      ensures Waiting(mid, x)
    {
    }
    forall q | true
      ensures MayCreate(t, q)
    {
      assert MayCreate(mid, q);
    }
  }

  lemma CreateKeepsInv(c: Config, s: Sys, p: nat)
    requires Inv(s)
    ensures Inv(Next(c, s, Create(p)))
  {
    if p in s.decided {
      var t, n := Next(c, s, Create(p)), |s.db.runs|;
      assert MayCreate(s, p);
      forall r: nat | Waiting(t, r)
        ensures r < |t.db.runs| && Untouched(t.db.runs[r].row) && !KilledOutside(JobOf(t.db, r))
      {
        assert r != n ==> Waiting(s, r);
      }
      assert n !in s.picked + s.db.queue by {
        assert forall r :: r in s.picked + s.db.queue ==> Waiting(s, r);
      }
      forall q | true
        ensures MayCreate(t, q)
      {
        assert MayCreate(s, q);
      }
    }
  }

  /** Queueing a created run, or losing track of something. */
  lemma HandOverKeepsInv(c: Config, s: Sys, step: Step)
    requires Inv(s) && (step.Enqueue? || step.GiveUp? || step.Lose?)
    ensures Inv(Next(c, s, step))
  {
    var t := Next(c, s, step);
    if step.Enqueue? && step.r in s.unqueued {
      assert Waiting(s, step.r);
    }
    forall x: nat | Waiting(t, x)
      ensures x < |t.db.runs| && Untouched(t.db.runs[x].row) && !KilledOutside(JobOf(t.db, x))
    {
      assert Waiting(s, x);
    }
    forall q | true
      ensures MayCreate(t, q)
    {
      assert MayCreate(s, q);
    }
  }

  lemma StopKeepsInv(found: bool, s: Sys, r: nat, now: nat, accepted: bool)
    requires Inv(s) && r < |s.db.runs| && r !in s.picked + s.unqueued
    requires found || r !in s.db.queue
    ensures Inv(s.(db := StopOne(found, s.db, r, now, accepted).0))
  {
    var row := s.db.runs[r].row;
    var stop := StopRow(row, JobOf(s.db, r), now, accepted);
    var t := s.(db := StopOne(found, s.db, r, now, accepted).0);
    LifeCycleKeepsDates(row, JobOf(s.db, r), now, accepted, 0);
    if r in s.db.queue {
      assert Waiting(s, r);
      assert stop.dequeued;
    }
    forall x | Waiting(t, x)
      ensures Waiting(s, x) && !KilledOutside(JobOf(t.db, x))
    {
      assert Waiting(s, x);
    }
    RowStepKeepsInv(s, t, r, stop.row);
  }

  lemma {:induction false} MarkStaleKeepsInv(found: bool, s: Sys, n: nat, now: nat, accepted: set<nat>)
    requires Inv(s) && n <= |s.db.runs|
    ensures Inv(s.(db := MarkStale(found, s.db, n, now, accepted).0))
    decreases n
  {
    if n == 0 {
    } else if Unfinished(s.db.runs[n - 1].row) {
      assert n - 1 !in s.picked + s.unqueued + s.db.queue by {
        assert forall r :: r in s.picked + s.unqueued + s.db.queue ==> Waiting(s, r);
      }
      StopKeepsInv(found, s, n - 1, now, n - 1 in accepted);
      var (next, raised) := StopOne(found, s.db, n - 1, now, n - 1 in accepted);
      if !raised {
        MarkStaleKeepsInv(found, s.(db := next), n - 1, now, accepted);
      }
    } else {
      MarkStaleKeepsInv(found, s, n - 1, now, accepted);
    }
  }

  lemma WorkerKeepsInv(c: Config, s: Sys, step: Step)
    requires Inv(s)
    requires step.Pick? || step.Begin? || step.Finish? || step.Failed? || step.Die? || step.JobChange?
    ensures Inv(Next(c, s, step))
  {
    var t := Next(c, s, step);
    assert step.r in s.picked || step.r in s.db.queue ==> Waiting(s, step.r);
    forall x | Waiting(t, x)
      ensures Waiting(s, x) && !KilledOutside(JobOf(t.db, x))
    {
      assert Waiting(s, x);
    }
    if step.r < |s.db.runs| {
      RowStepOrSame(c, s, step);
      RowStepKeepsInv(s, t, step.r, t.db.runs[step.r].row);
    }
  }

  lemma RowStepOrSame(c: Config, s: Sys, step: Step)
    requires Inv(s) && (step.Pick? || step.Begin? || step.Finish? || step.Failed? || step.Die? || step.JobChange?)
    requires step.r < |s.db.runs|
    ensures var t := Next(c, s, step);
            && t.db.runs == s.db.runs[step.r := s.db.runs[step.r].(row := t.db.runs[step.r].row)]
            && RowStep(s.db.runs[step.r].row, t.db.runs[step.r].row)
            && (Waiting(t, step.r) ==> Untouched(t.db.runs[step.r].row))
            && Apart(t) && t.executing <= s.executing + {step.r} && t.decided == s.decided
            && t.db.jobs.Keys <= s.db.jobs.Keys + {step.r}
  {
    assert step.r in s.picked || step.r in s.db.queue ==> Waiting(s, step.r);
  }

  lemma StepKeepsInv(c: Config, s: Sys, step: Step)
    requires c.Safe() && Inv(s)
    ensures Inv(Next(c, s, step))
  {
    match step
    case SetActive(p, on) =>
      assert forall x :: Waiting(Next(c, s, step), x) <==> Waiting(s, x);
      assert forall q :: MayCreate(Next(c, s, step), q) <==> MayCreate(s, q);
    case Read(p) =>
      if p in s.db.active && p !in s.decided {
        ReadKeepsInv(c, s, p);
      }
    case Create(p) => CreateKeepsInv(c, s, p);
    case Enqueue(_) => HandOverKeepsInv(c, s, step);
    case GiveUp(_) => HandOverKeepsInv(c, s, step);
    case Lose(_) => HandOverKeepsInv(c, s, step);
    case StopStep(r, now, accepted) =>
      if r < |s.db.runs| && MayStop(c, s, r) {
        StopKeepsInv(c.idsFound, s, r, now, accepted);
      }
    case MarkStaleStep(now, accepted) => MarkStaleKeepsInv(c.idsFound, s, |s.db.runs|, now, accepted);
    case RequeueStep(_, _) =>
    case _ => WorkerKeepsInv(c, s, step);
  }

  lemma {:induction false} ReachableInv(c: Config, steps: seq<Step>)
    requires c.Safe()
    ensures Inv(RunAll(c, steps))
  {
    if steps != [] {
      ReachableInv(c, steps[..|steps| - 1]);
      StepKeepsInv(c, RunAll(c, steps[..|steps| - 1]), steps[|steps| - 1]);
    }
  }

  /** What every reachable state keeps when the six conditions hold: a live run is the newest
    of its pipeline, every queued id is a QUEUED run, end dates go with exit codes. */
  lemma ReachableIsGood(c: Config, steps: seq<Step>)
    requires c.Safe()
    ensures Good(RunAll(c, steps).db)
  {
    ReachableInv(c, steps);
    InvIsGood(RunAll(c, steps));
  }

  /** What may go wrong with a run in somebody's hands: a firing dies before it queues the run it
    created; a worker dies, and the server records no end of the job or does; the server changes or
    forgets jobs of its own accord. */
  datatype Faults = Faults(lose: bool, dieSilently: bool, dieOnRecord: bool, jobChange: bool) {
    predicate Allows(step: Step) {
      match step
      case Lose(_) => lose
      case Die(_, endedAt, _) => if endedAt.None? then dieSilently else dieOnRecord
      case JobChange(_, _) => jobChange
      case _ => true
    }

    /** A recorded end is lost when the server forgets the job. */
    predicate Harmless() {
      !lose && !dieSilently && !(dieOnRecord && jobChange)
    }
  }

  ghost predicate Allowed(f: Faults, steps: seq<Step>) {
    forall step :: step in steps ==> f.Allows(step)
  }

  /** About to be queued, queued or picked if it has not started, executing if it has. */
  ghost predicate OnHand(s: Sys, r: nat)
    requires r < |s.db.runs|
  {
    if s.db.runs[r].row.startDate.None? then Waiting(s, r) else r in s.executing
  }

  /** Every live run is in somebody's hands. */
  ghost predicate Held(s: Sys) {
    forall r :: 0 <= r < |s.db.runs| && Live(s.db, r) ==> OnHand(s, r)
  }

  /** Every run without exit code is, unless its job is on record as killed. */
  ghost predicate HeldUnlessKilled(f: Faults, s: Sys) {
    forall r :: 0 <= r < |s.db.runs| && s.db.runs[r].row.exitcode.None? ==>
                  (f.dieOnRecord && KilledOutside(JobOf(s.db, r))) || OnHand(s, r)
  }

  lemma HeldIsHeld(f: Faults, s: Sys)
    requires Inv(s) && HeldUnlessKilled(f, s)
    ensures Held(s)
  {
    forall r | 0 <= r < |s.db.runs| && Live(s.db, r)
      ensures s.db.runs[r].row.exitcode.None? && !KilledOutside(JobOf(s.db, r))
    {
      assert WorkerCode(s.db.runs[r].row);
    }
  }

  lemma RowStepKeepsHeld(f: Faults, s: Sys, t: Sys, r: nat)
    requires HeldUnlessKilled(f, s) && r < |s.db.runs|
    requires |t.db.runs| == |s.db.runs|
    requires forall x :: 0 <= x < |s.db.runs| && x != r ==>
                           t.db.runs[x] == s.db.runs[x] && JobOf(t.db, x) == JobOf(s.db, x)
    requires forall x :: 0 <= x < |s.db.runs| && x != r && Waiting(s, x) ==> Waiting(t, x)
    requires forall x :: x != r && x in s.executing ==> x in t.executing
    requires t.db.runs[r].row.exitcode.None? ==> (f.dieOnRecord && KilledOutside(JobOf(t.db, r))) || OnHand(t, r)
    ensures HeldUnlessKilled(f, t)
  {
  }

  lemma FiringKeepsHeld(f: Faults, c: Config, s: Sys, step: Step)
    requires HeldUnlessKilled(f, s) && Inv(s) && (step.Read? || step.Create? || step.Enqueue? || step.GiveUp?)
    ensures HeldUnlessKilled(f, Next(c, s, step))
  {
    var t := Next(c, s, step);
    if step.Read? && Latest(s.db, step.p).Some? && t != s {
      RowStepKeepsHeld(f, s, t, Latest(s.db, step.p).value);
    } else if step.Create? {
      forall r: nat | r < |s.db.runs| && Waiting(s, r)
        ensures Waiting(t, r)
      {
      }
    } else if step.Enqueue? && step.r in s.unqueued {
      assert Waiting(s, step.r);
      RowStepKeepsHeld(f, s, t, step.r);
    }
  }

  lemma StopKeepsHeld(f: Faults, found: bool, s: Sys, r: nat, now: nat, accepted: bool)
    requires HeldUnlessKilled(f, s) && r < |s.db.runs|
    ensures HeldUnlessKilled(f, s.(db := StopOne(found, s.db, r, now, accepted).0))
  {
    var row := s.db.runs[r].row;
    var stop := StopRow(row, JobOf(s.db, r), now, accepted);
    assert stop.row.exitcode.None? ==>
        !stop.dequeued && !stop.jobDeleted && stop.row.startDate == row.startDate && row.exitcode.None?;
    RowStepKeepsHeld(f, s, s.(db := StopOne(found, s.db, r, now, accepted).0), r);
  }

  lemma {:induction false} MarkStaleKeepsHeld(f: Faults, found: bool, s: Sys, n: nat, now: nat, accepted: set<nat>)
    requires HeldUnlessKilled(f, s) && n <= |s.db.runs|
    ensures HeldUnlessKilled(f, s.(db := MarkStale(found, s.db, n, now, accepted).0))
    decreases n
  {
    if n == 0 {
    } else if Unfinished(s.db.runs[n - 1].row) {
      StopKeepsHeld(f, found, s, n - 1, now, n - 1 in accepted);
      var (next, raised) := StopOne(found, s.db, n - 1, now, n - 1 in accepted);
      if !raised {
        MarkStaleKeepsHeld(f, found, s.(db := next), n - 1, now, accepted);
      }
    } else {
      MarkStaleKeepsHeld(f, found, s, n - 1, now, accepted);
    }
  }

  lemma StepKeepsHeld(f: Faults, c: Config, s: Sys, step: Step)
    requires c.Safe() && Inv(s) && HeldUnlessKilled(f, s) && f.Harmless() && f.Allows(step)
    ensures HeldUnlessKilled(f, Next(c, s, step))
  {
    match step
    case SetActive(_, _) =>
    case Read(_) => FiringKeepsHeld(f, c, s, step);
    case Create(_) => FiringKeepsHeld(f, c, s, step);
    case Enqueue(_) => FiringKeepsHeld(f, c, s, step);
    case GiveUp(_) => FiringKeepsHeld(f, c, s, step);
    case StopStep(r, now, accepted) =>
      if r < |s.db.runs| && MayStop(c, s, r) {
        StopKeepsHeld(f, c.idsFound, s, r, now, accepted);
      }
    case MarkStaleStep(now, accepted) => MarkStaleKeepsHeld(f, c.idsFound, s, |s.db.runs|, now, accepted);
    case RequeueStep(_, _) =>
    case _ => WorkerKeepsHeld(f, c, s, step);
  }

  lemma WorkerKeepsHeld(f: Faults, c: Config, s: Sys, step: Step)
    requires Inv(s) && HeldUnlessKilled(f, s) && f.Harmless() && f.Allows(step)
    requires step.Lose? || step.Pick? || step.Begin? || step.Finish? || step.Failed? || step.Die? || step.JobChange?
    ensures HeldUnlessKilled(f, Next(c, s, step))
  {
    if step.Pick? || step.Begin? {
      PickupKeepsHeld(f, c, s, step);
    } else if step.r < |s.db.runs| && !step.Lose? {
      RowStepKeepsHeld(f, s, Next(c, s, step), step.r);
    }
  }

  lemma PickupKeepsHeld(f: Faults, c: Config, s: Sys, step: Step)
    requires Inv(s) && HeldUnlessKilled(f, s) && (step.Pick? || step.Begin?)
    ensures HeldUnlessKilled(f, Next(c, s, step))
  {
    if step.r < |s.db.runs| {
      RowStepKeepsHeld(f, s, Next(c, s, step), step.r);
    }
  }

  /** No run is forgotten: under harmless faults every live run is about to be queued, in the queue,
    with a worker about to start it, or executing. */
  lemma {:induction false} NoRunForgotten(c: Config, f: Faults, steps: seq<Step>)
    requires c.Safe() && f.Harmless() && Allowed(f, steps)
    ensures HeldUnlessKilled(f, RunAll(c, steps)) && Held(RunAll(c, steps))
  {
    ReachableInv(c, steps);
    if steps != [] {
      var init, last := steps[..|steps| - 1], steps[|steps| - 1];
      NoRunForgotten(c, f, init);
      ReachableInv(c, init);
      assert last in steps;
      StepKeepsHeld(f, c, RunAll(c, init), last);
    }
    HeldIsHeld(f, RunAll(c, steps));
  }

  /** The newest run of `p` is live, which is what holds a firing back. */
  predicate NewestIsLive(db: Db, p: nat) {
    Latest(db, p).Some? && Live(db, Latest(db, p).value)
  }

  /** Firing an active pipeline does nothing while its newest run is live; otherwise it creates
    one fresh, queued run, and at most writes down that the newest one was killed. */
  lemma FiringCreatesExactly(db: Db, p: nat)
    requires p in db.active
    ensures var after, n := EnqueuePipeline(db, p), |db.runs|;
            && (NewestIsLive(db, p) ==> after == db)
            && (!NewestIsLive(db, p) ==>
                  && |after.runs| == n + 1 && after.runs[n] == Run(p, FRESH) && Live(after, n)
                  && after.queue == db.queue + {n} && after.jobs == db.jobs[n := Job(JobQueued, None)]
                  && after.active == db.active
                  && Latest(after, p) == Some(n)
                  && (forall r :: 0 <= r < n && Latest(db, p) != Some(r) ==> after.runs[r] == db.runs[r])
                  && (Latest(db, p).Some? ==> Terminal(ReadStatus(after.runs[Latest(db, p).value].row, None).0)))
  {
    var latest := Latest(db, p);
    if latest.Some? {
      var r := latest.value;
      assert db.runs[r := db.runs[r].(row := db.runs[r].row)] == db.runs;
      assert ReadStatus(db.runs[r].row, JobOf(db, r)).0 == Running
          || ReadStatus(db.runs[r].row, JobOf(db, r)).0 == Queued
         ==> WithRow(db, r, ReadStatus(db.runs[r].row, JobOf(db, r)).1) == db;
    }
  }

  /** A firing that nothing comes between is its three steps. */
  lemma FiringIsThreeSteps(c: Config, s: Sys, p: nat)
    requires p in s.db.active || c.fireInactive
    requires p !in s.decided && |s.db.runs| !in s.unqueued
    ensures Next(c, Next(c, Next(c, s, Read(p)), Create(p)), Enqueue(|s.db.runs|))
         == s.(db := EnqueuePipeline(s.db, p))
  {
    var (status, read) := ScheduleStatus(s.db, p);
    if !HoldsBack(status) {
      assert s.decided + multiset{p} - multiset{p} == s.decided;
      assert s.unqueued + {|s.db.runs|} - {|s.db.runs|} == s.unqueued;
    }
  }

  // ----- the six conditions are needed

  ghost predicate OneLive(db: Db) {
    forall i, j ::
      0 <= i < j < |db.runs| && db.runs[i].pipeline == db.runs[j].pipeline ==> !(Live(db, i) && Live(db, j))
  }

  /** Two runs of one pipeline, one RUNNING or QUEUED and the other QUEUED. */
  ghost predicate TwoLive(s: Sys) {
    && |s.db.runs| == 2 && s.db.runs[0].pipeline == s.db.runs[1].pipeline
    && Live(s.db, 0) && Live(s.db, 1)
  }

  ghost predicate Reaches(c: Config, f: Faults, s: Sys) {
    exists steps :: Allowed(f, steps) && RunAll(c, steps) == s
  }

  const ANY := Faults(true, true, true, true)

  lemma ReachesEmpty(c: Config, f: Faults)
    ensures Reaches(c, f, EMPTY)
  {
    assert RunAll(c, []) == EMPTY;
  }

  lemma ReachesNext(c: Config, f: Faults, s: Sys, step: Step)
    requires Reaches(c, f, s) && f.Allows(step)
    ensures Reaches(c, f, Next(c, s, step))
  {
    var steps :| Allowed(f, steps) && RunAll(c, steps) == s;
    assert (steps + [step])[..|steps|] == steps;
    assert RunAll(c, steps + [step]) == Next(c, s, step);
  }

  lemma ReachesFired(c: Config, f: Faults, s: Sys)
    requires Reaches(c, f, s) && (0 in s.db.active || c.fireInactive)
    requires s.decided == multiset{} && s.unqueued == {}
    ensures Reaches(c, f, s.(db := EnqueuePipeline(s.db, 0)))
  {
    FiringIsThreeSteps(c, s, 0);
    ReachesNext(c, f, s, Read(0));
    ReachesNext(c, f, Next(c, s, Read(0)), Create(0));
    ReachesNext(c, f, Next(c, Next(c, s, Read(0)), Create(0)), Enqueue(|s.db.runs|));
  }

  /** A run that was stopped while it was queued. */
  const STOPPED_ROW := Ended(FRESH.(log := STOP_REQUESTED), STOPPED, "", 0)

  /** Pipeline 0 is active and has one run. */
  function One(row: RunRow, queue: set<nat>, jobs: map<nat, Job>): Db {
    Db([Run(0, row)], {0}, queue, jobs)
  }

  /** A second run has been created and queued. */
  function Two(row: RunRow, queue: set<nat>, jobs: map<nat, Job>): Db {
    Db([Run(0, row), Run(0, FRESH)], {0}, queue + {1}, jobs[1 := Job(JobQueued, None)])
  }

  lemma StopsUnstarted(found: bool, queue: set<nat>, jobs: map<nat, Job>)
    requires 0 in jobs ==> jobs[0].status != JobFailed
    ensures StopOne(found, One(FRESH, queue, jobs), 0, 0, true)
         == (One(STOPPED_ROW, if found then queue - {0} else queue, jobs), false)
  {
    var job := if 0 in jobs then Some(jobs[0]) else None;
    assert StopRow(FRESH, job, 0, true) == Stop(STOPPED_ROW, true, false, false);
    assert [Run(0, FRESH)][0 := Run(0, STOPPED_ROW)] == [Run(0, STOPPED_ROW)];
  }

  /** Over without success. */
  predicate Over(row: RunRow) {
    row.exitcode.Some? && row.exitcode.value > 0
  }

  lemma FiresAfter(row: RunRow, queue: set<nat>, jobs: map<nat, Job>)
    requires Over(row)
    ensures EnqueuePipeline(One(row, queue, jobs), 0) == Two(row, queue, jobs)
  {
    var db := One(row, queue, jobs);
    assert Latest(db, 0) == Some(0);
    assert [Run(0, row)][0 := Run(0, row)] == [Run(0, row)];
    assert ScheduleStatus(db, 0) == (Some(ReadStatus(row, JobOf(db, 0)).0), db);
  }

  /** With a worker about to start a run that is over, starting it makes two live runs. */
  lemma StartingOver(c: Config, row: RunRow, queue: set<nat>, jobs: map<nat, Job>)
    requires 0 in jobs && jobs[0].status != JobFailed
    ensures TwoLive(Next(c, Quiet(Two(row, queue, jobs), {0}), Begin(0, 0)))
  {
  }

  lemma OneQueued(c: Config, f: Faults)
    ensures Reaches(c, f, Quiet(One(FRESH, {0}, map[0 := Job(JobQueued, None)]), {}))
  {
    ReachesEmpty(c, f);
    ReachesNext(c, f, EMPTY, SetActive(0, true));
    var active := Quiet(Db([], {0}, {}, map[]), {});
    assert Next(c, EMPTY, SetActive(0, true)) == active;
    ReachesFired(c, f, active);
    assert EnqueuePipeline(active.db, 0) == One(FRESH, {0}, map[0 := Job(JobQueued, None)]);
  }

  /** Once a run that is over is in the queue: firing, picking and starting make two live runs. */
  lemma PickAfterFiring(c: Config, row: RunRow, jobs: map<nat, Job>) returns (s: Sys)
    requires Over(row) && Reaches(c, ANY, Quiet(One(row, {0}, jobs), {}))
    ensures Reaches(c, ANY, s) && TwoLive(s)
  {
    FiresAfter(row, {0}, jobs);
    var fired := Quiet(Two(row, {0}, jobs), {});
    ReachesFired(c, ANY, Quiet(One(row, {0}, jobs), {}));
    var started := jobs[0 := Job(JobStarted, None)];
    var picked := Quiet(Two(row, {}, started), {0});
    ReachesNext(c, ANY, fired, Pick(0));
    assert Next(c, fired, Pick(0)) == picked by {
      assert {0} + {1} - {0} == {} + {1};
      assert jobs[1 := Job(JobQueued, None)][0 := Job(JobStarted, None)] == started[1 := Job(JobQueued, None)];
    }
    s := Next(c, picked, Begin(0, 0));
    ReachesNext(c, ANY, picked, Begin(0, 0));
    StartingOver(c, row, {}, started);
  }

  /** The queue does not recognise run ids: a stopped run stays queued, a second run is
    created, and then the first one starts. */
  lemma UnrecognisedIds(c: Config) returns (s: Sys)
    requires !c.idsFound && c.stopQueued
    ensures Reaches(c, ANY, s) && TwoLive(s)
  {
    var jobs := map[0 := Job(JobQueued, None)];
    OneQueued(c, ANY);
    ReachesNext(c, ANY, Quiet(One(FRESH, {0}, jobs), {}), StopStep(0, 0, true));
    StopsUnstarted(false, {0}, jobs);
    s := PickAfterFiring(c, STOPPED_ROW, jobs);
  }

  /** The one run has been created and not queued. */
  function Unqueued(row: RunRow): Sys {
    Sys(One(row, {}, map[]), {}, {}, multiset{}, {0})
  }

  lemma OneCreated(c: Config, f: Faults)
    ensures Reaches(c, f, Unqueued(FRESH))
  {
    ReachesEmpty(c, f);
    ReachesNext(c, f, EMPTY, SetActive(0, true));
    var active := Quiet(Db([], {0}, {}, map[]), {});
    assert Next(c, EMPTY, SetActive(0, true)) == active;
    var decided := active.(decided := multiset{0});
    ReachesNext(c, f, active, Read(0));
    assert Next(c, active, Read(0)) == decided;
    ReachesNext(c, f, decided, Create(0));
    assert Next(c, decided, Create(0)) == Unqueued(FRESH) by {
      assert multiset{0} - multiset{0} == multiset{};
    }
  }

  /** A stop slips between a firing creating a run and queueing it. */
  lemma StopBeforeQueueing(c: Config) returns (s: Sys)
    requires c.stopUnqueued
    ensures Reaches(c, ANY, s) && TwoLive(s)
  {
    var created := Unqueued(FRESH);
    OneCreated(c, ANY);
    ReachesNext(c, ANY, created, StopStep(0, 0, true));
    StopsUnstarted(c.idsFound, {}, map[]);
    var stopped := Unqueued(STOPPED_ROW);
    assert Next(c, created, StopStep(0, 0, true)) == stopped by {
      assert {} - {0} == {};
    }
    ReachesNext(c, ANY, stopped, Enqueue(0));
    var jobs := map[0 := Job(JobQueued, None)];
    assert Next(c, stopped, Enqueue(0)) == Quiet(One(STOPPED_ROW, {0}, jobs), {}) by {
      assert {0} - {0} == {} && {} + {0} == {0};
    }
    s := PickAfterFiring(c, STOPPED_ROW, jobs);
  }

  lemma OnePicked(c: Config, f: Faults, jobs: map<nat, Job>)
    requires jobs == map[0 := Job(JobStarted, None)]
    ensures Reaches(c, f, Quiet(One(FRESH, {}, jobs), {0}))
  {
    var queued := map[0 := Job(JobQueued, None)];
    OneQueued(c, f);
    ReachesNext(c, f, Quiet(One(FRESH, {0}, queued), {}), Pick(0));
    assert Next(c, Quiet(One(FRESH, {0}, queued), {}), Pick(0)) == Quiet(One(FRESH, {}, jobs), {0}) by {
      assert queued[0 := Job(JobStarted, None)] == jobs;
      assert {0} - {0} == {} && {} + {0} == {0};
    }
  }

  /** A stop slips between a worker picking the run and starting it. */
  lemma StopInGap(c: Config) returns (s: Sys)
    requires c.stopPicked
    ensures Reaches(c, ANY, s) && TwoLive(s)
  {
    var jobs := map[0 := Job(JobStarted, None)];
    var picked := Quiet(One(FRESH, {}, jobs), {0});
    OnePicked(c, ANY, jobs);
    ReachesNext(c, ANY, picked, StopStep(0, 0, true));
    StopsUnstarted(c.idsFound, {}, jobs);
    var stopped := Quiet(One(STOPPED_ROW, {}, jobs), {0});
    assert Next(c, picked, StopStep(0, 0, true)) == stopped by {
      assert {} - {0} == {};
    }
    ReachesFired(c, ANY, stopped);
    FiresAfter(STOPPED_ROW, {}, jobs);
    var fired := Quiet(Two(STOPPED_ROW, {}, jobs), {0});
    s := Next(c, fired, Begin(0, 0));
    ReachesNext(c, ANY, fired, Begin(0, 0));
    StartingOver(c, STOPPED_ROW, {}, jobs);
  }

  /** A disabled schedule reports DISABLED, which holds nothing back. */
  lemma FiringInactive(c: Config) returns (s: Sys)
    requires c.fireInactive
    ensures Reaches(c, ANY, s) && TwoLive(s)
  {
    var once := Quiet(Db([Run(0, FRESH)], {}, {0}, map[0 := Job(JobQueued, None)]), {});
    ReachesEmpty(c, ANY);
    ReachesFired(c, ANY, EMPTY);
    assert EMPTY.(db := EnqueuePipeline(EMPTY.db, 0)) == once;
    s := once.(db := EnqueuePipeline(once.db, 0));
    ReachesFired(c, ANY, once);
  }

  /** A run that was over before it started, here through the failure callback, is put back into the
    queue, still FAILURE, so the next firing creates another one. */
  lemma RequeueingFailed(c: Config) returns (s: Sys)
    requires c.requeue
    ensures Reaches(c, ANY, s) && TwoLive(s)
  {
    var jobs := map[0 := Job(JobFailed, Some(0))];
    OneFailed(c, jobs);
    ReachesNext(c, ANY, Quiet(One(FAILED_ROW, {}, jobs), {}), RequeueStep(0, {}));
    RequeueOne(c.idsFound, FAILED_ROW, jobs);
    s := PickAfterFiring(c, FAILED_ROW, jobs[0 := Job(JobQueued, None)]);
  }

  /** A run whose worker failed before starting it. */
  const FAILED_ROW := Ended(FRESH, 1, "value=", 0)

  lemma OneFailed(c: Config, jobs: map<nat, Job>)
    requires jobs == map[0 := Job(JobFailed, Some(0))]
    ensures Reaches(c, ANY, Quiet(One(FAILED_ROW, {}, jobs), {}))
  {
    var started := map[0 := Job(JobStarted, None)];
    OnePicked(c, ANY, started);
    ReachesNext(c, ANY, Quiet(One(FRESH, {}, started), {0}), Failed(0, 0, "value=", ""));
    assert Next(c, Quiet(One(FRESH, {}, started), {0}), Failed(0, 0, "value=", ""))
        == Quiet(One(FAILED_ROW, {}, jobs), {}) by {
      assert [Run(0, FRESH)][0 := Run(0, FAILED_ROW)] == [Run(0, FAILED_ROW)];
      assert started[0 := Job(JobFailed, Some(0))] == jobs;
      assert {0} - {0} == {} && {} - {0} == {};
    }
  }

  /** Two firings both read the status before either creates its run. */
  lemma OverlappingFirings(c: Config) returns (s: Sys)
    requires c.overlap
    ensures Reaches(c, ANY, s) && TwoLive(s)
  {
    ReachesEmpty(c, ANY);
    ReachesNext(c, ANY, EMPTY, SetActive(0, true));
    var none := Quiet(Db([], {0}, {}, map[]), {});
    assert Next(c, EMPTY, SetActive(0, true)) == none;
    ReachesNext(c, ANY, none, Read(0));
    var once := none.(decided := multiset{0});
    assert Next(c, none, Read(0)) == once;
    ReachesNext(c, ANY, once, Read(0));
    var twice := none.(decided := multiset{0, 0});
    assert Next(c, once, Read(0)) == twice;
    s := CreatesTwice(c, twice);
  }

  lemma CreatesTwice(c: Config, twice: Sys) returns (s: Sys)
    requires Reaches(c, ANY, twice)
    requires twice == Quiet(Db([], {0}, {}, map[]), {}).(decided := multiset{0, 0})
    ensures Reaches(c, ANY, s) && TwoLive(s)
  {
    ReachesNext(c, ANY, twice, Create(0));
    var first := Next(c, twice, Create(0));
    ReachesNext(c, ANY, first, Create(0));
    s := Next(c, first, Create(0));
    assert Live(s.db, 0) && Live(s.db, 1);
  }

  lemma RequeueOne(found: bool, row: RunRow, jobs: map<nat, Job>)
    requires row.startDate.None?
    ensures RequeueMissing(found, One(row, {}, jobs), 1, 0, {})
         == (One(row, {0}, jobs[0 := Job(JobQueued, None)]), false)
  {
    var db := One(row, {}, jobs);
    assert Latest(db, 0) == Some(0);
    assert Enqueued(db, 0) == One(row, {0}, jobs[0 := Job(JobQueued, None)]) by {
      assert {} + {0} == {0};
    }
    assert RequeueMissing(found, Enqueued(db, 0), 0, 0, {}) == (Enqueued(db, 0), false);
  }

  /** A pipeline never has two live runs, in any run of the system, exactly when the queue
    recognises run ids or no queued run is stopped, no run is stopped between being created and being queued or between
    being picked and being started, only active schedules fire, missing jobs are not requeued,
    and no two firings of one pipeline overlap between reading the status and creating the run. */
  lemma NeverTwoLiveExactly(c: Config)
    ensures (forall steps :: OneLive(RunAll(c, steps).db)) <==> c.Safe()
  {
    if c.Safe() {
      forall steps | true
        ensures OneLive(RunAll(c, steps).db)
      {
        ReachableIsGood(c, steps);
      }
    } else {
      var s;
      if !c.idsFound && c.stopQueued {
        s := UnrecognisedIds(c);
      } else if c.stopUnqueued {
        s := StopBeforeQueueing(c);
      } else if c.stopPicked {
        s := StopInGap(c);
      } else if c.fireInactive {
        s := FiringInactive(c);
      } else if c.requeue {
        s := RequeueingFailed(c);
      } else {
        s := OverlappingFirings(c);
      }
      var steps :| RunAll(c, steps) == s;
      assert !OneLive(RunAll(c, steps).db);
    }
  }

  // ----- harmless faults are needed

  /** A firing dies between creating its run and queueing it: the run stays QUEUED, in no queue. */
  lemma LostRun(c: Config, f: Faults) returns (s: Sys)
    requires f.lose
    ensures Reaches(c, f, s) && !Held(s)
  {
    OneCreated(c, f);
    ReachesNext(c, f, Unqueued(FRESH), Lose(0));
    s := Next(c, Unqueued(FRESH), Lose(0));
    assert Live(s.db, 0) && !OnHand(s, 0);
  }

  /** A worker dies and the server records no end of the job. */
  lemma SilentDeath(c: Config, f: Faults) returns (s: Sys)
    requires f.dieSilently
    ensures Reaches(c, f, s) && !Held(s)
  {
    var jobs := map[0 := Job(JobStarted, None)];
    var picked := Quiet(One(FRESH, {}, jobs), {0});
    OnePicked(c, f, jobs);
    ReachesNext(c, f, picked, Die(0, None, ""));
    s := Next(c, picked, Die(0, None, ""));
    assert Live(s.db, 0) && !OnHand(s, 0);
  }

  /** A worker dies on record, and the server forgets the job before anybody reads the status: the run
    turns from FAILURE back to QUEUED. */
  lemma ForgottenDeath(c: Config, f: Faults) returns (s: Sys)
    requires f.dieOnRecord && f.jobChange
    ensures Reaches(c, f, s) && !Held(s)
  {
    var jobs := map[0 := Job(JobStarted, None)];
    var picked := Quiet(One(FRESH, {}, jobs), {0});
    OnePicked(c, f, jobs);
    ReachesNext(c, f, picked, Die(0, Some(0), ""));
    var dead := Next(c, picked, Die(0, Some(0), ""));
    ReachesNext(c, f, dead, JobChange(0, None));
    s := Next(c, dead, JobChange(0, None));
    assert Live(s.db, 0) && !OnHand(s, 0);
  }

  /** Under the six conditions, runs are never forgotten exactly under harmless faults. */
  lemma NoRunForgottenExactly(c: Config, f: Faults)
    requires c.Safe()
    ensures (forall steps :: Allowed(f, steps) ==> Held(RunAll(c, steps))) <==> f.Harmless()
  {
    if f.Harmless() {
      forall steps | Allowed(f, steps)
        ensures Held(RunAll(c, steps))
      {
        NoRunForgotten(c, f, steps);
      }
    } else {
      var s;
      if f.lose {
        s := LostRun(c, f);
      } else if f.dieSilently {
        s := SilentDeath(c, f);
      } else {
        s := ForgottenDeath(c, f);
      }
      var steps :| Allowed(f, steps) && RunAll(c, steps) == s;
      assert !Held(RunAll(c, steps));
    }
  }

  // ----- housekeeping

  /** Started and successful, yet without an end date: the one kind of run `stop_run` leaves
    unfinished.  No reachable state has one. */
  predicate EndlessSuccess(row: RunRow) {
    row.startDate.Some? && row.exitcode == Some(0) && row.endDate.None?
  }

  /** `mark_stale_runs` that goes through leaves no started run without end date or exit code
    but the endless successes, and it touches nothing else: runs that had not started, and runs
    that had ended, keep their row. */
  lemma {:induction false} MarkStaleFinishesAll(found: bool, db: Db, n: nat, now: nat, takers: set<nat>)
    requires n <= |db.runs|
    ensures var (after, raised) := MarkStale(found, db, n, now, takers);
            && (!raised ==> forall i :: 0 <= i < n ==>
                  var row := after.runs[i].row;
                  (row.startDate.Some? && (row.endDate.None? || row.exitcode.None?)
                   <==> EndlessSuccess(db.runs[i].row)))
            && (forall i :: 0 <= i < |db.runs| ==>
                  var row := db.runs[i].row;
                  (i >= n || row.startDate.None? || (row.endDate.Some? && row.exitcode.Some?) ==>
                     after.runs[i] == db.runs[i]))
    decreases n
  {
    if n > 0 {
      if Unfinished(db.runs[n - 1].row) {
        var (next, raised) := StopOne(found, db, n - 1, now, n - 1 in takers);
        StopFinishes(db.runs[n - 1].row, JobOf(db, n - 1), now, n - 1 in takers);
        if !raised {
          MarkStaleFinishesAll(found, next, n - 1, now, takers);
        }
      } else {
        MarkStaleFinishesAll(found, db, n - 1, now, takers);
      }
    }
  }

  lemma StopFinishes(row: RunRow, job: Option<Job>, now: nat, accepted: bool)
    ensures var stop := StopRow(row, job, now, accepted);
            !stop.raised ==> (Unfinished(stop.row) <==> EndlessSuccess(row))
  {
  }

  /** Run `i` has started, lacks end date or exit code, and its stop is refused. */
  predicate Refuses(db: Db, i: nat, takers: set<nat>)
    requires i < |db.runs|
  {
    var row := db.runs[i].row;
    && row.startDate.Some? && (row.endDate.None? || row.exitcode.None?)
    && StopRefused(row, JobOf(db, i), i in takers)
  }

  /** A refusal ends it: it raises exactly when some run refuses, and then the runs older than the
    newest that refuses are left alone. */
  lemma {:induction false} MarkStaleEndsAtRefusal(found: bool, db: Db, n: nat, now: nat, takers: set<nat>)
    requires n <= |db.runs|
    ensures MarkStale(found, db, n, now, takers).1 <==> exists i :: 0 <= i < n && Refuses(db, i, takers)
    ensures forall i, j :: 0 <= j < i < n && Refuses(db, i, takers) ==>
                             MarkStale(found, db, n, now, takers).0.runs[j] == db.runs[j]
    decreases n
  {
    if n > 0 {
      var r := n - 1;
      var row := db.runs[r].row;
      if Unfinished(row) {
        var (next, raised) := StopOne(found, db, r, now, r in takers);
        StopReachesTerminal(row, JobOf(db, r), now, r in takers);
        assert raised <==> Refuses(db, r, takers);
        if !raised {
          assert forall i :: 0 <= i < r ==> next.runs[i] == db.runs[i] && JobOf(next, i) == JobOf(db, i);
          assert forall i :: 0 <= i < r ==> Refuses(next, i, takers) == Refuses(db, i, takers);
          MarkStaleEndsAtRefusal(found, next, r, now, takers);
        }
      } else {
        MarkStaleEndsAtRefusal(found, db, r, now, takers);
      }
    }
  }

  /** The runs from `n` on, and their places in the queue, are left alone. */
  ghost predicate RestKept(db: Db, after: Db, n: nat) {
    && |after.runs| == |db.runs|
    && forall r :: n <= r < |db.runs| ==> after.runs[r] == db.runs[r] && (r in db.queue ==> r in after.queue)
  }

  lemma {:induction false} RequeueKeepsRest(found: bool, db: Db, n: nat, now: nat, takers: set<nat>)
    requires n <= |db.runs|
    ensures RestKept(db, RequeueMissing(found, db, n, now, takers).0, n)
    decreases n
  {
    if n > 0 {
      var r := n - 1;
      if db.runs[r].row.startDate.None? && !(found && r in db.queue) {
        if Latest(db, db.runs[r].pipeline) == Some(r) {
          RequeueKeepsRest(found, Enqueued(db, r), r, now, takers);
        } else {
          var (next, raised) := StopOne(found, db, r, now, r in takers);
          if !raised {
            RequeueKeepsRest(found, next, r, now, takers);
          }
        }
      } else {
        RequeueKeepsRest(found, db, r, now, takers);
      }
    }
  }

  /** What becomes of a run that never started. */
  ghost predicate Settled(db: Db, after: Db, r: nat)
    requires r < |db.runs| == |after.runs|
  {
    db.runs[r].row.startDate.None? ==>
      r in after.queue || (after.runs[r].row.exitcode.Some? && Latest(db, db.runs[r].pipeline) != Some(r))
  }

  /** `requeue_missing_jobs` that goes through leaves every run that never started either in the
    queue or ended; the newest of its pipeline in the queue. */
  lemma {:induction false} RequeueCoversAll(found: bool, db: Db, n: nat, now: nat, takers: set<nat>)
    requires n <= |db.runs|
    requires !RequeueMissing(found, db, n, now, takers).1
    ensures forall r :: 0 <= r < n ==> Settled(db, RequeueMissing(found, db, n, now, takers).0, r)
    decreases n
  {
    if n > 0 {
      var r := n - 1;
      var next := RequeueStepDb(found, db, r, now, takers);
      RequeueCoversAll(found, next, r, now, takers);
      RequeueKeepsRest(found, next, r, now, takers);
      StepSettles(found, db, r, now, takers);
      var after := RequeueMissing(found, db, n, now, takers).0;
      assert after == RequeueMissing(found, next, r, now, takers).0;
      assert after.runs[r] == next.runs[r] && (r in next.queue ==> r in after.queue);
      forall x | 0 <= x < n
        ensures Settled(db, after, x)
      {
        assert x < r ==> Settled(next, after, x);
      }
    }
  }

  /** What the loop does for run `r`. */
  function RequeueStepDb(found: bool, db: Db, r: nat, now: nat, takers: set<nat>): (next: Db)
    requires r < |db.runs|
    ensures |next.runs| == |db.runs|
  {
    if db.runs[r].row.startDate.None? && !(found && r in db.queue) then
      if Latest(db, db.runs[r].pipeline) == Some(r) then Enqueued(db, r)
      else StopOne(found, db, r, now, r in takers).0
    else db
  }

  lemma StepSettles(found: bool, db: Db, r: nat, now: nat, takers: set<nat>)
    requires r < |db.runs| && !RequeueMissing(found, db, r + 1, now, takers).1
    ensures var next := RequeueStepDb(found, db, r, now, takers);
            && (db.runs[r].row.startDate.None? ==>
                  r in next.queue
                  || (next.runs[r].row.exitcode.Some? && Latest(db, db.runs[r].pipeline) != Some(r)))
            && (forall p :: Latest(db, p) == Latest(next, p))
            && (forall x :: 0 <= x < r ==> next.runs[x] == db.runs[x])
  {
    SamePipelines(db, RequeueStepDb(found, db, r, now, takers));
  }

  lemma {:induction false} LatestSame(runs: seq<Run>, runs': seq<Run>, p: nat, n: nat)
    requires n <= |runs| == |runs'| && forall i :: 0 <= i < n ==> runs[i].pipeline == runs'[i].pipeline
    ensures LatestBelow(runs, p, n) == LatestBelow(runs', p, n)
  {
    if n > 0 {
      LatestSame(runs, runs', p, n - 1);
    }
  }

  lemma SamePipelines(db: Db, next: Db)
    requires |db.runs| == |next.runs| && forall i :: 0 <= i < |db.runs| ==> db.runs[i].pipeline == next.runs[i].pipeline
    ensures forall p :: Latest(db, p) == Latest(next, p)
  {
    forall p | true
      ensures Latest(db, p) == Latest(next, p)
    {
      LatestSame(db.runs, next.runs, p, |db.runs|);
    }
  }

  /** Run `i` never started, is not found in the queue, is not the newest of its pipeline, and its
    stop is refused. */
  predicate RefusesRequeue(found: bool, db: Db, i: nat, takers: set<nat>)
    requires i < |db.runs|
  {
    var row := db.runs[i].row;
    && row.startDate.None? && !(found && i in db.queue)
    && Latest(db, db.runs[i].pipeline) != Some(i)
    && StopRefused(row, JobOf(db, i), i in takers)
  }

  /** `requeue_missing_jobs` raises exactly when some run refuses; started runs keep their rows. */
  lemma {:induction false} RequeueEndsAtRefusal(found: bool, db: Db, n: nat, now: nat, takers: set<nat>)
    requires n <= |db.runs|
    ensures RequeueMissing(found, db, n, now, takers).1
       <==> exists i :: 0 <= i < n && RefusesRequeue(found, db, i, takers)
    ensures forall i :: 0 <= i < |db.runs| && (i >= n || db.runs[i].row.startDate.Some?) ==>
                          RequeueMissing(found, db, n, now, takers).0.runs[i] == db.runs[i]
    decreases n
  {
    if n > 0 {
      var r := n - 1;
      var row, next := db.runs[r].row, RequeueStepDb(found, db, r, now, takers);
      StopReachesTerminal(row, JobOf(db, r), now, r in takers);
      if RefusesRequeue(found, db, r, takers) {
        assert RequeueMissing(found, db, n, now, takers) == (next, true);
      } else {
        assert RequeueMissing(found, db, n, now, takers) == RequeueMissing(found, next, r, now, takers);
        OthersRefuse(found, db, r, now, takers);
        RequeueEndsAtRefusal(found, next, r, now, takers);
      }
    }
  }

  lemma OthersRefuse(found: bool, db: Db, r: nat, now: nat, takers: set<nat>)
    requires r < |db.runs|
    ensures var next := RequeueStepDb(found, db, r, now, takers);
            forall i :: 0 <= i < r ==>
                          (RefusesRequeue(found, next, i, takers) <==> RefusesRequeue(found, db, i, takers))
  {
    var next := RequeueStepDb(found, db, r, now, takers);
    SamePipelines(db, next);
    assert forall i :: 0 <= i < r ==>
      next.runs[i] == db.runs[i] && JobOf(next, i) == JobOf(db, i) && (i in next.queue <==> i in db.queue);
  }

  /** In a reachable state that is every started run. */
  lemma MarkStaleInReachable(c: Config, steps: seq<Step>, now: nat, takers: set<nat>)
    requires c.Safe()
    ensures var db := RunAll(c, steps).db;
            var after := Next(c, RunAll(c, steps), MarkStaleStep(now, takers)).db;
            !MarkStale(c.idsFound, db, |db.runs|, now, takers).1 ==>
              forall i :: 0 <= i < |after.runs| ==>
                            var row := after.runs[i].row;
                            row.startDate.Some? ==> row.endDate.Some? && row.exitcode.Some?
  {
    var db := RunAll(c, steps).db;
    ReachableIsGood(c, steps);
    MarkStaleFinishesAll(c.idsFound, db, |db.runs|, now, takers);
    forall i | 0 <= i < |db.runs|
      ensures !EndlessSuccess(db.runs[i].row)
    {
      assert DatesAgree(db.runs[i].row);
    }
  }
}
