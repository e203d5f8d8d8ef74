/** The task functions over the stored runs (vulnerabilities/tasks.py and
  vulnerabilities/schedules.py), each proved to do to the database and the queue server what
  its operation of the run protocol says. */
module PipelineTasks {
  import opened Options
  import opened PipelineRuns
  import opened RunProtocol

  class TaskStore {
    var runs: seq<PipelineRun>
    var active: set<nat>
    const server: JobServer

    ghost predicate Valid()
      reads this
    {
      && (forall i :: 0 <= i < |runs| ==> runs[i].runId == i)
    }

    ghost function Rows(): (rows: seq<Run>)
      reads this, runs
      ensures |rows| == |runs|
    {
      seq(|runs|, i requires 0 <= i < |runs| reads this, runs => Run(runs[i].pipeline, runs[i].Row()))
    }

    ghost function Contents(): Db
      reads this, server, runs
    {
      Db(Rows(), active, server.queue, server.jobs)
    }

    constructor (idsFound: bool)
      ensures Valid() && Contents() == EMPTY.db && server.idsFound == idsFound && fresh(server)
    {
      runs, active := [], {};
      server := new JobServer(idsFound);
    }

    method LatestRun(p: nat) returns (latest: Option<nat>)
      ensures latest == Latest(Contents(), p)
    {
      var n := |runs|;
      while n > 0
        invariant 0 <= n <= |runs|
        invariant Latest(Contents(), p) == LatestBelow(Rows(), p, n)
      {
        if runs[n - 1].pipeline == p {
          return Some(n - 1);
        }
        n := n - 1;
      }
      return None;
    }

    /** The schedule's status; reading the newest run may write to it. */
    method ScheduleStatus(p: nat) returns (s: Option<Status>)
      requires Valid()
      modifies runs
      ensures Valid() && runs == old(runs) && active == old(active)
      ensures (s, Contents()) == RunProtocol.ScheduleStatus(old(Contents()), p)
    {
      if p !in active {
        return Some(Disabled);
      }
      var latest := LatestRun(p);
      if latest.None? {
        return None;
      }
      ghost var before := Contents();
      var status := runs[latest.value].GetStatus(server);
      assert Rows() == before.runs[latest.value := Run(p, runs[latest.value].Row())];
      return Some(status);
    }

    method EnqueueRun(r: nat)
      modifies server
      ensures Contents() == Enqueued(old(Contents()), r)
      ensures server.queue == old(server.queue) + {r}
    {
      server.Enqueue(r);
      assert Rows() == old(Rows());
    }

    method EnqueuePipeline(p: nat)
      requires Valid()
      modifies this`runs, runs, server
      ensures Valid()
      ensures Contents() == RunProtocol.EnqueuePipeline(old(Contents()), p)
    {
      var status := ScheduleStatus(p);
      if status == Some(Running) || status == Some(Queued) {
        return;
      }
      ghost var read := Contents();
      var run := new PipelineRun(|runs|, p);
      runs := runs + [run];
      assert Rows() == read.runs + [Run(p, FRESH)];
      EnqueueRun(|runs| - 1);
    }

    /** What the worker does first in `execute_pipeline`. */
    method StartRun(r: nat, now: nat)
      requires Valid() && r < |runs|
      modifies runs[r]
      ensures Valid()
      ensures Contents() == WithRow(old(Contents()), r, Started(old(Contents()).runs[r].row, now))
    {
      runs[r].SetRunStarted(now);
      assert Rows() == old(Rows())[r := Run(runs[r].pipeline, runs[r].Row())];
    }

    /** What it does last, run-once pipelines included. */
    method EndRun(r: nat, exitcode: int, output: string, now: nat, runOnce: bool)
      requires Valid() && r < |runs|
      modifies runs[r], this`active
      ensures Valid()
      ensures Contents() == var db := WithRow(old(Contents()), r,
                                              Ended(old(Contents()).runs[r].row, exitcode, output, now));
                            if runOnce then db.(active := db.active - {db.runs[r].pipeline}) else db
    {
      runs[r].SetRunEnded(exitcode, output, now);
      assert Rows() == old(Rows())[r := Run(runs[r].pipeline, runs[r].Row())];
      if runOnce {
        active := active - {runs[r].pipeline};
        assert Rows() == WithRow(old(Contents()), r,
                                 Ended(old(Contents()).runs[r].row, exitcode, output, now)).runs;
      }
    }

    /** The failure callback; a job without run is ignored. */
    method SetRunFailure(r: nat, output: string, now: nat)
      requires Valid()
      modifies set i | 0 <= i < |runs| && i == r :: runs[i]
      ensures Valid()
      ensures Contents() == if r < |runs| then WithRow(old(Contents()), r,
                                                       Ended(old(Contents()).runs[r].row, 1, output, now))
                            else old(Contents())
    {
      if r < |runs| {
        runs[r].SetRunEnded(1, output, now);
        assert Rows() == old(Rows())[r := Run(runs[r].pipeline, runs[r].Row())];
      } else {
        assert Rows() == old(Rows());
      }
    }

    method StopRun(r: nat, now: nat, accepted: bool) returns (raised: bool)
      requires Valid() && r < |runs|
      modifies runs[r], server
      ensures Valid()
      ensures (Contents(), raised) == StopOne(server.idsFound, old(Contents()), r, now, accepted)
    {
      raised := runs[r].StopRun(server, now, accepted);
      assert Rows() == old(Rows())[r := Run(runs[r].pipeline, runs[r].Row())];
    }

    /** The loop visits the unfinished runs newest first; `takers` are the runs whose stop
      command the server accepts. */
    method MarkStaleRuns(now: nat, takers: set<nat>) returns (raised: bool)
      requires Valid()
      modifies runs, server
      ensures Valid() && runs == old(runs)
      ensures (Contents(), raised)
           == MarkStale(server.idsFound, old(Contents()), |runs|, now, takers)
    {
      var n := |runs|;
      raised := false;
      while n > 0
        invariant 0 <= n <= |runs| && runs == old(runs) && active == old(active)
        invariant MarkStale(server.idsFound, Contents(), n, now, takers)
               == MarkStale(server.idsFound, old(Contents()), |runs|, now, takers)
      {
        n := n - 1;
        raised := StopIfUnfinished(n, now, n in takers);
        if raised {
          return;
        }
      }
    }

    /** The filter and the body of the loop. */
    method StopIfUnfinished(r: nat, now: nat, accepted: bool) returns (raised: bool)
      requires Valid() && r < |runs|
      modifies runs[r], server
      ensures Valid()
      ensures (Contents(), raised)
           == if Unfinished(old(Contents()).runs[r].row)
              then StopOne(server.idsFound, old(Contents()), r, now, accepted)
              else (old(Contents()), false)
    {
      var run := runs[r];
      if run.runStartDate.Some? && (run.runEndDate.None? || run.runExitcode.None?) {
        raised := StopRun(r, now, accepted);
      } else {
        raised := false;
      }
    }

    method RequeueMissingJobs(now: nat, takers: set<nat>) returns (raised: bool)
      requires Valid()
      modifies runs, server
      ensures Valid() && runs == old(runs)
      ensures (Contents(), raised)
           == RequeueMissing(server.idsFound, old(Contents()), |runs|, now, takers)
    {
      var n := |runs|;
      raised := false;
      while n > 0
        invariant 0 <= n <= |runs| && runs == old(runs) && active == old(active)
        invariant RequeueMissing(server.idsFound, Contents(), n, now, takers)
               == RequeueMissing(server.idsFound, old(Contents()), |runs|, now, takers)
      {
        n := n - 1;
        raised := RequeueIfMissing(n, now, n in takers);
        if raised {
          return;
        }
      }
    }

    /** The body of the loop. */
    method RequeueIfMissing(r: nat, now: nat, accepted: bool) returns (raised: bool)
      requires Valid() && r < |runs|
      modifies runs[r], server
      ensures Valid()
      ensures var db := old(Contents());
              (Contents(), raised)
              == if db.runs[r].row.startDate.None? && !(server.idsFound && r in db.queue)
                 then if Latest(db, db.runs[r].pipeline) == Some(r) then (Enqueued(db, r), false)
                      else StopOne(server.idsFound, db, r, now, accepted)
                 else (db, false)
    {
      raised := false;
      if runs[r].runStartDate.None? && !(server.idsFound && r in server.queue) {
        var latest := LatestRun(runs[r].pipeline);
        if latest == Some(r) {
          EnqueueRun(r);
        } else {
          raised := StopRun(r, now, accepted);
        }
      }
    }
  }
}
