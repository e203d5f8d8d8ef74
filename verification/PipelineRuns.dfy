/** One pipeline run and its life cycle (`PipelineRun` in vulnerabilities/models.py).

  A run's status is not stored: it is read off the exit code, the start date and the job the
  queue server keeps under the run's id, and reading it may itself write. */
module PipelineRuns {
  import opened Options

  datatype Status = Disabled | Queued | Running | Success | Failure | Stopped | Stale

  predicate Terminal(s: Status) {
    s == Success || s == Failure || s == Stopped || s == Stale
  }

  /** What the queue server knows about a job; `excInfo` is the exception it died of, if any. */
  datatype JobStatus = JobQueued | JobStarted | JobFinished | JobFailed | JobOther
  datatype Job = Job(status: JobStatus, endedAt: Option<nat>, excInfo: string := "")

  const STALED := 88
  const STOPPED := 99
  const STOP_REQUESTED := "Stop run requested\n"

  datatype RunRow = RunRow(startDate: Option<nat>, endDate: Option<nat>, exitcode: Option<int>,
                           output: string, log: string)

  const FRESH := RunRow(None, None, None, "", "")

  // ----- the life cycle on values

  /** `set_run_ended`. */
  function Ended(row: RunRow, exitcode: int, output: string, at: nat): RunRow {
    row.(exitcode := Some(exitcode), output := output, endDate := Some(at))
  }

  /** `set_run_started`: everything is forgotten except that the run starts now. */
  function Started(row: RunRow, now: nat): RunRow {
    FRESH.(startDate := Some(now))
  }

  predicate FailCode(row: RunRow) {
    row.exitcode.Some? && row.exitcode.value > 0
  }

  /** The job died and the server can tell when. */
  predicate KilledOutside(job: Option<Job>) {
    job.Some? && job.value.status == JobFailed && job.value.endedAt.Some?
  }

  function KilledOutput(job: Job): string {
    "Killed from outside, exc_info=" + job.excInfo
  }

  /** The `status` property: the value, and the row after whatever reading it wrote. */
  function ReadStatus(row: RunRow, job: Option<Job>): (Status, RunRow) {
    if row.exitcode == Some(0) then (Success, row)
    else if row.exitcode == Some(STALED) then (Stale, row)
    else if row.exitcode == Some(STOPPED) then (Stopped, row)
    else if FailCode(row) then (Failure, row)
    else if KilledOutside(job) then (Failure, Ended(row, 1, KilledOutput(job.value), job.value.endedAt.value))
    else if row.startDate.Some? then (Running, row)
    else (Queued, row)
  }

  /** What stopping a run did: its row, whether its id was taken off the queue, whether its job
    was deleted, and whether the call raised. */
  datatype Stop = Stop(row: RunRow, dequeued: bool, jobDeleted: bool, raised: bool)

  /** `stop_run`.  `accepted` says whether the server takes the stop command. */
  function StopRow(row: RunRow, job: Option<Job>, now: nat, accepted: bool): Stop {
    if row.exitcode == Some(0) then Stop(row, false, false, false)
    else
      var (status, read) := ReadStatus(row.(log := row.log + STOP_REQUESTED), job);
      if status == Queued then Stop(Ended(read, STOPPED, "", now), true, false, false)
      else if job.None? then Stop(Ended(read, STALED, "", now), false, false, false)
      else if job.value.status == JobFailed then
        if job.value.endedAt.None? then Stop(read, false, false, true)
        else Stop(Ended(read, 1, KilledOutput(job.value), job.value.endedAt.value), false, false, false)
      else if !accepted then Stop(read, false, false, true)
      else Stop(Ended(read, STOPPED, "", now), false, true, false)
  }

  // ----- what the life cycle guarantees

  /** The end date is set exactly when the exit code is. */
  predicate DatesAgree(row: RunRow) {
    row.endDate.Some? <==> row.exitcode.Some?
  }

  lemma LifeCycleKeepsDates(row: RunRow, job: Option<Job>, now: nat, accepted: bool, code: int)
    requires DatesAgree(row)
    ensures DatesAgree(Started(row, now)) && DatesAgree(Ended(row, code, "", now))
    ensures DatesAgree(ReadStatus(row, job).1)
    ensures DatesAgree(StopRow(row, job, now, accepted).row)
  {
  }

  /** Reading the status twice gives the same answer, and the second read writes nothing, even
    if the job is gone by then. */
  lemma StatusIsStable(row: RunRow, job: Option<Job>, later: Option<Job>)
    ensures var (s, read) := ReadStatus(row, job);
            ReadStatus(read, job) == (s, read) && (Terminal(s) ==> ReadStatus(read, later) == (s, read))
  {
  }

  /** The server refuses: it no longer runs the job, or lost the time at which it failed. */
  predicate StopRefused(row: RunRow, job: Option<Job>, accepted: bool) {
    && row.exitcode != Some(0)
    && ReadStatus(row, job).0 != Queued
    && job.Some?
    && (if job.value.status == JobFailed then job.value.endedAt.None? else !accepted)
  }

  /** What each status says, for every row and job.  A negative exit code is no end. */
  lemma StatusMeans(row: RunRow, job: Option<Job>)
    ensures var s, code := ReadStatus(row, job).0, row.exitcode;
            && (s == Success <==> code == Some(0))
            && (s == Stale <==> code == Some(88))
            && (s == Stopped <==> code == Some(99))
            && (s == Failure <==> (code.Some? && code.value > 0 && code.value != 88 && code.value != 99)
                                  || ((code.None? || code.value < 0) && job.Some?
                                      && job.value.status == JobFailed && job.value.endedAt.Some?))
            && (Terminal(s) <==> s == Success || s == Failure || s == Stopped || s == Stale)
            && (s == Running <==> row.startDate.Some? && !Terminal(s))
            && (s == Queued <==> row.startDate.None? && !Terminal(s))
  {
  }

  /** Reading writes only when it finds a run without exit code whose job died: exit code 1, and
    the end of the job as the end of the run. */
  lemma ReadingRecordsDeath(row: RunRow, job: Option<Job>)
    ensures var read := ReadStatus(row, job).1;
            if (row.exitcode.None? || row.exitcode.value < 0) && job.Some?
               && job.value.status == JobFailed && job.value.endedAt.Some? then
              && read.exitcode == Some(1) && read.output == "Killed from outside, exc_info=" + job.value.excInfo
              && read.endDate == job.value.endedAt && read.startDate == row.startDate && read.log == row.log
            else read == row
  {
  }

  /** From every run and job state: `stop_run` raises exactly when the server refuses; the run
    is terminal afterwards, whatever happens to the job, exactly when the server did not refuse
    or the run had already ended; a success is never touched; the queue is asked exactly for
    runs that were queued. */
  lemma StopReachesTerminal(row: RunRow, job: Option<Job>, now: nat, accepted: bool)
    ensures var stop := StopRow(row, job, now, accepted);
            && (stop.raised <==> StopRefused(row, job, accepted))
            && ((forall later :: Terminal(ReadStatus(stop.row, later).0))
                <==> !StopRefused(row, job, accepted) || Terminal(ReadStatus(row, job).0))
            && (row.exitcode == Some(0) ==> stop.row == row)
            && (stop.dequeued <==> ReadStatus(row, job).0 == Queued)
  {
    var stop := StopRow(row, job, now, accepted);
    assert ReadStatus(stop.row, None).0 == Running
        <== StopRefused(row, job, accepted) && !Terminal(ReadStatus(row, job).0);
  }

  /** Which terminal status a stop that goes through ends in: STOPPED for a run that was queued
    or whose job took the command, STALE for one whose job is gone, FAILURE for one whose job
    had died; and then the job's own end is recorded.  The job is deleted exactly when it took
    the command. */
  lemma StopEndsIn(row: RunRow, job: Option<Job>, now: nat, accepted: bool, later: Option<Job>)
    requires row.exitcode != Some(0) && !StopRefused(row, job, accepted)
    ensures var stop := StopRow(row, job, now, accepted);
            var was, ends := ReadStatus(row, job).0, ReadStatus(stop.row, later).0;
            && (ends == Stopped <==> was == Queued || (job.Some? && job.value.status != JobFailed))
            && (ends == Stale <==> was != Queued && job.None?)
            && (ends == Failure <==> was != Queued && job.Some? && job.value.status == JobFailed)
            && (ends == Failure ==> stop.row.endDate == job.value.endedAt)
            && (ends != Failure ==> stop.row.endDate == Some(now))
            && (stop.jobDeleted <==> was != Queued && job.Some? && job.value.status != JobFailed)
            && stop.row.startDate == row.startDate
            && stop.row.exitcode == Some(if ends == Failure then 1 else if ends == Stale then 88 else 99)
            && stop.row.output == (if ends == Failure then "Killed from outside, exc_info=" + job.value.excInfo else "")
            && stop.row.log == row.log + "Stop run requested\n"
  {
  }

  // ----- the code

  /** The queue server.  `idsFound` says whether the membership test of `dequeue_job` and
    `is_job_in_queue`, which compares a run id with the entries of `queue.jobs`, recognises a
    listed run. */
  class JobServer {
    const idsFound: bool
    var queue: set<nat>
    var jobs: map<nat, Job>

    constructor (idsFound: bool)
      ensures this.idsFound == idsFound && queue == {} && jobs == map[]
    {
      this.idsFound := idsFound;
      queue, jobs := {}, map[];
    }

    function Fetch(runId: nat): Option<Job>
      reads this
    {
      if runId in jobs then Some(jobs[runId]) else None
    }

    method Enqueue(runId: nat)
      modifies this
      ensures queue == old(queue) + {runId} && jobs == old(jobs)[runId := Job(JobQueued, None)]
    {
      queue := queue + {runId};
      jobs := jobs[runId := Job(JobQueued, None)];
    }

    method DequeueJob(runId: nat)
      modifies this`queue
      ensures queue == if idsFound then old(queue) - {runId} else old(queue)
    {
      if idsFound && runId in queue {
        queue := queue - {runId};
      }
    }

    method DeleteJob(runId: nat)
      modifies this`jobs
      ensures jobs == old(jobs) - {runId}
    {
      jobs := jobs - {runId};
    }
  }

  class PipelineRun {
    const runId: nat
    const pipeline: nat
    var runStartDate: Option<nat>
    var runEndDate: Option<nat>
    var runExitcode: Option<int>
    var runOutput: string
    var log: string

    ghost function Row(): RunRow
      reads this
    {
      RunRow(runStartDate, runEndDate, runExitcode, runOutput, log)
    }

    constructor (runId: nat, pipeline: nat)
      ensures Row() == FRESH && this.runId == runId && this.pipeline == pipeline
      ensures runStartDate == None && runEndDate == None && runExitcode == None && runOutput == "" && log == ""
    {
      this.runId, this.pipeline := runId, pipeline;
      runStartDate, runEndDate, runExitcode, runOutput, log := None, None, None, "", "";
    }

    method SetRunEnded(exitcode: int, output: string, at: nat)
      modifies this
      ensures Row() == Ended(old(Row()), exitcode, output, at)
      ensures runExitcode == Some(exitcode) && runOutput == output && runEndDate == Some(at)
      ensures runStartDate == old(runStartDate) && log == old(log)
    {
      runExitcode := Some(exitcode);
      runOutput := output;
      runEndDate := Some(at);
    }

    method ResetRun()
      modifies this
      ensures Row() == FRESH
    {
      runStartDate, runEndDate, runExitcode := None, None, None;
      runOutput, log := "", "";
    }

    method SetRunStarted(now: nat)
      modifies this
      ensures Row() == Started(old(Row()), now)
      ensures runStartDate == Some(now) && runEndDate == None && runExitcode == None && runOutput == "" && log == ""
    {
      ResetRun();
      runStartDate := Some(now);
    }

    method AppendToLog(message: string)
      modifies this`log
      ensures log == old(log) + message
    {
      log := log + message;
    }

    /** The `run_failed` property, with its write. */
    method RunFailed(server: JobServer) returns (failed: bool)
      modifies this
      ensures failed == (FailCode(old(Row())) || KilledOutside(server.Fetch(runId)))
      ensures Row() == if !FailCode(old(Row())) && KilledOutside(server.Fetch(runId))
                       then var job := server.Fetch(runId).value;
                            Ended(old(Row()), 1, KilledOutput(job), job.endedAt.value)
                       else old(Row())
    {
      failed := runExitcode.Some? && runExitcode.value > 0;
      if !failed {
        var job := server.Fetch(runId);
        if job.Some? && job.value.status == JobFailed && job.value.endedAt.Some? {
          SetRunEnded(1, KilledOutput(job.value), job.value.endedAt.value);
          failed := true;
        }
      }
    }

    method GetStatus(server: JobServer) returns (s: Status)
      modifies this
      ensures (s, Row()) == ReadStatus(old(Row()), server.Fetch(runId))
    {
      if runExitcode == Some(0) {
        return Success;
      }
      if runExitcode == Some(STALED) {
        return Stale;
      }
      if runExitcode == Some(STOPPED) {
        return Stopped;
      }
      var failed := RunFailed(server);
      if failed {
        return Failure;
      }
      s := if runStartDate.Some? then Running else Queued;
    }

    method StopRun(server: JobServer, now: nat, accepted: bool) returns (raised: bool)
      modifies this, server
      ensures var stop := StopRow(old(Row()), old(server.Fetch(runId)), now, accepted);
              && Row() == stop.row && raised == stop.raised
              && server.queue == (if stop.dequeued && server.idsFound then old(server.queue) - {runId}
                                  else old(server.queue))
              && server.jobs == (if stop.jobDeleted then old(server.jobs) - {runId} else old(server.jobs))
    {
      raised := false;
      if runExitcode == Some(0) {
        return;
      }
      AppendToLog(STOP_REQUESTED);
      var status := GetStatus(server);
      if status == Queued {
        server.DequeueJob(runId);
        SetRunEnded(STOPPED, "", now);
        return;
      }
      var job := server.Fetch(runId);
      if job.None? {
        SetRunEnded(STALED, "", now);
        return;
      }
      if job.value.status == JobFailed {
        if job.value.endedAt.None? {
          return true;
        }
        SetRunEnded(1, KilledOutput(job.value), job.value.endedAt.value);
        return;
      }
      if !accepted {
        return true;
      }
      SetRunEnded(STOPPED, "", now);
      server.DeleteJob(runId);
    }
  }
}
