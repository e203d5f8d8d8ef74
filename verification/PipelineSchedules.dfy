/** Pipeline schedules and the scheduler jobs that fire them (`PipelineSchedule.save` in
  vulnerabilities/models.py, vulnerabilities/schedules.py).

  Saving a schedule replaces its scheduler job as a side effect.  When this keeps schedules
  and jobs in step is characterised exactly. */
module PipelineSchedules {
  import opened Options

  type ScheduleKey = nat
  type WorkId = nat

  /** A stored schedule; `isActive` is a nullable flag. */
  datatype Schedule = Schedule(isActive: Option<bool>, runInterval: int, runPriority: int, workId: Option<WorkId>) {
    predicate Active() {
      isActive == Some(true)
    }
  }

  /** The schedule table, the jobs of the scheduler, and the next job id it will hand out. */
  datatype State = State(rows: map<ScheduleKey, Schedule>, jobs: set<WorkId>, nextId: WorkId)

  /** What a save writes: the fields of the object other than its work id. */
  datatype Fields = Fields(isActive: Option<bool>, runInterval: int, runPriority: int) {
    predicate Active() {
      isActive == Some(true)
    }
  }

  /** The save creates a row, or changes a field the job depends on. */
  predicate Touches(s: State, key: ScheduleKey, f: Fields) {
    key in s.rows ==> Fields(s.rows[key].isActive, s.rows[key].runInterval, s.rows[key].runPriority) != f
  }

  function WorkIdOf(s: State, key: ScheduleKey): Option<WorkId> {
    if key in s.rows then s.rows[key].workId else None
  }

  predicate WasActive(s: State, key: ScheduleKey) {
    key in s.rows && s.rows[key].Active()
  }

  /** `create_new_job`: nothing without Redis; else the old job goes and an active schedule
    gets a new one. */
  function NewJob(s: State, current: Option<WorkId>, active: bool, redisUp: bool): (State, Option<WorkId>) {
    if !redisUp then (s, None)
    else
      var cleared := if current.Some? then s.(jobs := s.jobs - {current.value}) else s;
      if active then
        (cleared.(jobs := cleared.jobs + {s.nextId}, nextId := s.nextId + 1), Some(s.nextId))
      else (cleared, None)
  }

  /** `save`: the job is replaced first, the validation that may raise comes after. */
  function Save(s: State, key: ScheduleKey, f: Fields, redisUp: bool, valid: bool): State {
    var (t, workId) :=
      if Touches(s, key, f) then NewJob(s, WorkIdOf(s, key), f.Active(), redisUp)
      else (s, WorkIdOf(s, key));
    if valid then
      t.(rows := t.rows[key := Schedule(f.isActive, f.runInterval, f.runPriority, workId)])
    else t
  }

  function Delete(s: State, keys: set<ScheduleKey>): State {
    s.(rows := s.rows - keys)
  }

  ghost function WorkIds(s: State): set<WorkId> {
    set k | k in s.rows && s.rows[k].workId.Some? :: s.rows[k].workId.value
  }

  function ClearZombies(s: State): State {
    s.(jobs := set j | j in s.jobs && exists k :: k in s.rows && s.rows[k].workId == Some(j))
  }

  // ----- the code

  class Scheduler {
    var rows: map<ScheduleKey, Schedule>
    var jobs: set<WorkId>
    var nextId: WorkId

    ghost function Contents(): State
      reads this
    {
      State(rows, jobs, nextId)
    }

    constructor ()
      ensures Contents() == State(map[], {}, 0)
    {
      rows, jobs, nextId := map[], {}, 0;
    }

    method ClearJob(id: WorkId)
      modifies this`jobs
      ensures jobs == old(jobs) - {id}
    {
      jobs := jobs - {id};
    }

    method ScheduleExecution() returns (id: WorkId)
      modifies this`jobs, this`nextId
      ensures id == old(nextId) && jobs == old(jobs) + {id} && nextId == id + 1
    {
      id := nextId;
      jobs, nextId := jobs + {id}, nextId + 1;
    }

    method CreateNewJob(workId: Option<WorkId>, active: bool, redisUp: bool) returns (r: Option<WorkId>)
      modifies this`jobs, this`nextId
      ensures (Contents(), r) == NewJob(old(Contents()), workId, active, redisUp)
    {
      if !redisUp {
        return None;
      }
      if workId.Some? {
        ClearJob(workId.value);
      }
      if !active {
        return None;
      }
      var id := ScheduleExecution();
      return Some(id);
    }

    /** `key` is the primary key the object has or will get. */
    method SaveSchedule(key: ScheduleKey, f: Fields, redisUp: bool, valid: bool)
      returns (r: Result<(), string>)
      modifies this
      ensures Contents() == Save(old(Contents()), key, f, redisUp, valid)
      ensures r.Ok? <==> valid
    {
      var workId := if key in rows then rows[key].workId else None;
      if key !in rows {
        workId := CreateNewJob(None, f.Active(), redisUp);
      } else {
        var existing := rows[key];
        if existing.isActive != f.isActive || existing.runInterval != f.runInterval
           || existing.runPriority != f.runPriority {
          workId := CreateNewJob(workId, f.Active(), redisUp);
        }
      }
      if !valid {
        return Raise("ValidationError");
      }
      rows := rows[key := Schedule(f.isActive, f.runInterval, f.runPriority, workId)];
      return Ok(());
    }

    /** The loop over `scheduler.get_jobs()`. */
    method ClearZombiePipelineSchedules()
      modifies this`jobs
      ensures Contents() == ClearZombies(old(Contents()))
    {
      var ids := set k | k in rows :: rows[k].workId;
      var rest := jobs;
      while rest != {}
        invariant rest <= jobs <= old(jobs)
        invariant forall j :: j in old(jobs) && j !in rest ==> (j in jobs <==> Some(j) in ids)
        decreases rest
      {
        var job :| job in rest;
        rest := rest - {job};
        if Some(job) !in ids {
          ClearJob(job);
        }
      }
    }
  }

  // ----- schedules and jobs in step

  /** Every active schedule owns a job, no inactive one does, nobody shares, and ids ahead are
    unused. */
  ghost predicate Owned(s: State) {
    && (forall k :: k in s.rows ==> (s.rows[k].workId.Some? <==> s.rows[k].isActive == Some(true)))
    && (forall k :: k in s.rows && s.rows[k].workId.Some? ==> s.rows[k].workId.value in s.jobs)
    && (forall k, l ::
          k in s.rows && l in s.rows && s.rows[k].workId.Some? && s.rows[k].workId == s.rows[l].workId ==> k == l)
    && (forall j :: j in s.jobs ==> j < s.nextId)
  }

  ghost predicate NoZombies(s: State) {
    s.jobs <= WorkIds(s)
  }

  /** Exactly one job per active schedule and no other jobs. */
  ghost predicate InStep(s: State) {
    Owned(s) && NoZombies(s)
  }

  /** What the caller of `save` can know beforehand: nothing the job depends on changes, or
    Redis and the validation agree, or the schedule neither was nor becomes active. */
  predicate SaveIsSafe(s: State, key: ScheduleKey, f: Fields, redisUp: bool, valid: bool) {
    || !Touches(s, key, f)
    || redisUp == valid
    || (!WasActive(s, key) && !f.Active())
  }

  /** A save keeps schedules and jobs in step exactly when it is safe.  The failures: with
    Redis down a valid save drops the work id and strands the job; an invalid save with Redis up
    has replaced the job by the time it raises. */
  lemma SaveKeepsInStepExactly(s: State, key: ScheduleKey, f: Fields, redisUp: bool, valid: bool)
    requires InStep(s)
    ensures InStep(Save(s, key, f, redisUp, valid)) <==> SaveIsSafe(s, key, f, redisUp, valid)
  {
    if SaveIsSafe(s, key, f, redisUp, valid) {
      SafeSaveKeepsOwned(s, key, f, redisUp, valid);
      SafeSaveMakesNoZombie(s, key, f, redisUp, valid);
    } else {
      UnsafeSaveBreaks(s, key, f, redisUp, valid);
    }
  }

  /** The row is there and agrees on the three fields the job depends on. */
  predicate SameFields(s: State, key: ScheduleKey, f: Fields) {
    && key in s.rows && s.rows[key].isActive == f.isActive
    && s.rows[key].runInterval == f.runInterval && s.rows[key].runPriority == f.runPriority
  }

  /** A valid save stores the fields and nothing else.  With Redis up the job is left alone when
    nothing it depends on changed; otherwise the old job is gone, and a schedule whose flag is set
    has a new one. */
  lemma SaveReplacesJob(s: State, key: ScheduleKey, f: Fields)
    requires Owned(s)
    ensures var t := Save(s, key, f, true, true);
            && t.rows.Keys == s.rows.Keys + {key}
            && (forall k :: k in s.rows && k != key ==> t.rows[k] == s.rows[k])
            && Fields(t.rows[key].isActive, t.rows[key].runInterval, t.rows[key].runPriority) == f
            && (SameFields(s, key, f) ==> t == s)
            && (!SameFields(s, key, f) ==>
                  && (key in s.rows && s.rows[key].workId.Some? ==> s.rows[key].workId.value !in t.jobs)
                  && (if f.isActive == Some(true)
                      then t.rows[key].workId.Some? && t.jobs - s.jobs == {t.rows[key].workId.value}
                      else t.rows[key].workId == None && t.jobs <= s.jobs))
            && (forall j :: j in s.jobs && !(key in s.rows && s.rows[key].workId == Some(j)) ==> j in t.jobs)
  {
    var t := Save(s, key, f, true, true);
    if !Touches(s, key, f) {
      assert t.rows == s.rows;
    }
  }

  lemma SafeSaveKeepsOwned(s: State, key: ScheduleKey, f: Fields, redisUp: bool, valid: bool)
    requires Owned(s) && SaveIsSafe(s, key, f, redisUp, valid)
    ensures Owned(Save(s, key, f, redisUp, valid))
  {
    var t := Save(s, key, f, redisUp, valid);
    forall k | k in t.rows
      ensures t.rows[k].workId.Some? <==> t.rows[k].Active()
      ensures t.rows[k].workId.Some? ==> t.rows[k].workId.value in t.jobs
    {
      if k != key {
        assert t.rows[k] == s.rows[k];
      }
    }
  }

  lemma SafeSaveMakesNoZombie(s: State, key: ScheduleKey, f: Fields, redisUp: bool, valid: bool)
    requires InStep(s) && SaveIsSafe(s, key, f, redisUp, valid)
    ensures NoZombies(Save(s, key, f, redisUp, valid))
  {
    var t := Save(s, key, f, redisUp, valid);
    forall j | j in t.jobs
      ensures j in WorkIds(t)
    {
      if j in s.jobs {
        assert j in WorkIds(s);
        var k :| k in s.rows && s.rows[k].workId == Some(j);
        assert t.rows[k].workId == Some(j);
      } else {
        assert t.rows[key].workId == Some(j);
      }
    }
  }

  lemma UnsafeSaveBreaks(s: State, key: ScheduleKey, f: Fields, redisUp: bool, valid: bool)
    requires InStep(s) && !SaveIsSafe(s, key, f, redisUp, valid)
    ensures !InStep(Save(s, key, f, redisUp, valid))
  {
    var t := Save(s, key, f, redisUp, valid);
    if redisUp {
      assert t.rows == s.rows;
      if f.Active() {
        assert s.nextId in t.jobs && s.nextId !in s.jobs;
        assert s.nextId !in WorkIds(t);
      } else {
        var id := s.rows[key].workId.value;
        assert id !in t.jobs && t.rows[key].workId == Some(id);
      }
    } else {
      assert t.jobs == s.jobs && t.rows[key].workId == None;
      if !f.Active() {
        var id := s.rows[key].workId.value;
        assert forall k :: k in t.rows && k != key ==> t.rows[k] == s.rows[k];
        assert id in t.jobs && id !in WorkIds(t);
      }
    }
  }

  /** From any state, clearing removes exactly the jobs no schedule owns. */
  lemma ClearRemovesExactlyZombies(s: State)
    ensures var t := ClearZombies(s);
            t.rows == s.rows && t.jobs == s.jobs * WorkIds(s) && NoZombies(t)
  {
    var t := ClearZombies(s);
    forall j | j in t.jobs
      ensures j in WorkIds(s)
    {
      var k :| k in s.rows && s.rows[k].workId == Some(j);
    }
    assert WorkIds(t) == WorkIds(s);
  }

  /** Deleting rows takes exactly these rows and leaves their jobs behind: schedules and jobs stay in
    step exactly when no deleted schedule is active. */
  lemma DeleteKeepsInStepExactly(s: State, keys: set<ScheduleKey>)
    requires InStep(s)
    ensures Delete(s, keys).rows == s.rows - keys && Delete(s, keys).jobs == s.jobs
    ensures InStep(Delete(s, keys)) <==> forall k :: k in keys && k in s.rows ==> s.rows[k].isActive != Some(true)
  {
    var t := Delete(s, keys);
    if k :| k in keys && k in s.rows && s.rows[k].isActive == Some(true) {
      assert s.rows[k].workId.value !in WorkIds(t);
    } else {
      forall j | j in t.jobs
        ensures j in WorkIds(t)
      {
        assert j in WorkIds(s);
        var k :| k in s.rows && s.rows[k].workId == Some(j);
        assert k in t.rows;
      }
    }
  }

  // ----- histories

  datatype Step =
    | SaveStep(key: ScheduleKey, f: Fields)
    | DeleteStep(keys: set<ScheduleKey>)
    | ClearStep

  function Next(s: State, step: Step): State {
    match step
    case SaveStep(key, f) => Save(s, key, f, true, true)
    case DeleteStep(keys) => Delete(s, keys)
    case ClearStep => ClearZombies(s)
  }

  function Run(steps: seq<Step>): State {
    if steps == [] then State(map[], {}, 0) else Next(Run(steps[..|steps| - 1]), steps[|steps| - 1])
  }

  /** A history is its steps one after the other, from empty tables. */
  lemma RunStepByStep(steps: seq<Step>, step: Step)
    ensures Run([]) == State(map[], {}, 0)
    ensures Run(steps + [step]) == Next(Run(steps), step)
  {
    assert (steps + [step])[..|steps|] == steps;
  }

  lemma StepKeepsOwned(s: State, step: Step)
    requires Owned(s)
    ensures Owned(Next(s, step))
  {
    match step
    case SaveStep(key, f) => SafeSaveKeepsOwned(s, key, f, true, true);
    case DeleteStep(keys) =>
    case ClearStep =>
  }

  /** With Redis up and valid saves every active schedule has its own job at all times. */
  lemma {:induction false} HistoryKeepsOwned(steps: seq<Step>)
    ensures Owned(Run(steps))
  {
    if steps != [] {
      HistoryKeepsOwned(steps[..|steps| - 1]);
      StepKeepsOwned(Run(steps[..|steps| - 1]), steps[|steps| - 1]);
    }
  }

  /** After every deletion there was a clearing. */
  ghost predicate ClearedSinceDelete(steps: seq<Step>) {
    forall d :: 0 <= d < |steps| && steps[d].DeleteStep? ==> exists c :: d < c < |steps| && steps[c].ClearStep?
  }

  /** Deleting rows strands jobs until the next clearing; otherwise there is exactly one job
    per active schedule and no other job. */
  lemma {:induction false} HistoryInStep(steps: seq<Step>)
    requires ClearedSinceDelete(steps)
    ensures InStep(Run(steps))
  {
    HistoryKeepsOwned(steps);
    if steps != [] {
      var init, last := steps[..|steps| - 1], steps[|steps| - 1];
      if last.ClearStep? {
        ClearRemovesExactlyZombies(Run(init));
      } else {
        assert !last.DeleteStep?;
        forall d | 0 <= d < |init| && init[d].DeleteStep?
          ensures exists c :: d < c < |init| && init[c].ClearStep?
        {
          assert steps[d].DeleteStep?;
          var c :| d < c < |steps| && steps[c].ClearStep?;
          assert init[c].ClearStep?;
        }
        HistoryInStep(init);
        SaveKeepsInStepExactly(Run(init), last.key, last.f, true, true);
      }
    }
  }
}
