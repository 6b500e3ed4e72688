/**
 The scheduler as a pure state machine over its task registry and its store.
 Time is an integer number of seconds passed in as `now`. Running a task is
 recorded by appending its name to a dispatch log; the task body itself is not
 modelled. The repeating timer is reduced to a count of armed callbacks.
 */
module Cronner {
  import opened Wrappers
  import opened Tasks
  import opened CronnerStore

  datatype CronnerError = DuplicateName

  datatype CronnerState = CronnerState(
    store: Store,
    /** Seconds between two checks. */
    checkTime: int,
    /** The registry: task name to task. */
    tasks: map<string, CronTask>,
    running: bool,
    /** Number of timer callbacks that are armed and have not fired yet. */
    armed: nat)

  /** The result of a check cycle: the new state and the names dispatched, in order. */
  datatype Cycle = Cycle(state: CronnerState, dispatched: seq<string>)

  const DefaultCheckTime: int := 10

  /** Every task is registered under its own name. */
  predicate TasksKeyed(tasks: map<string, CronTask>) {
    forall n :: n in tasks ==> tasks[n].taskName == n
  }

  predicate Valid(c: CronnerState) {
    WellFormed(c.store) && TasksKeyed(c.tasks) && c.checkTime >= 1
  }

  /** Every registered task has a schedule record. */
  predicate Consistent(c: CronnerState) {
    c.tasks.Keys <= c.store.Keys
  }

  /** The task registered under `n`, if any. */
  function LookupTask(tasks: map<string, CronTask>, n: string): (t: Option<CronTask>)
    ensures t.None? <==> n !in tasks
    ensures TasksKeyed(tasks) && t.Some? ==> t.value.taskName == n
  {
    if n in tasks then Some(tasks[n]) else None
  }

  /** A scheduler with the in-memory store, which starts empty, and the default interval. */
  function Init(): (c: CronnerState)
    ensures c.checkTime == DefaultCheckTime
    ensures c.store == map[] && c.tasks == map[]
    ensures !c.running && c.armed == 0
    ensures Valid(c) && Consistent(c)
  {
    CronnerState(map[], DefaultCheckTime, map[], false, 0)
  }

  /** A scheduler with a requested interval (an unsigned number) and an optional store. */
  function InitWithCheckTime(checkTime: nat, store: Option<Store>): (c: CronnerState)
    ensures c.checkTime >= 1
    ensures checkTime == 0 ==> c.checkTime == 1
    ensures checkTime != 0 ==> c.checkTime == checkTime
    ensures store.Some? ==> c.store == store.value
    ensures store.None? ==> c.store == map[]
    ensures c.tasks == map[] && !c.running && c.armed == 0
    ensures (store.None? || WellFormed(store.value)) ==> Valid(c)
    ensures Consistent(c)
  {
    var interval := if checkTime == 0 then 1 else checkTime;
    var s := if store.Some? then store.value else map[];
    CronnerState(s, interval, map[], false, 0)
  }

  /** A scheduler with a given store and the default interval. */
  function InitWithStore(store: Store): (c: CronnerState)
    ensures c.checkTime == DefaultCheckTime
    ensures c.store == store
    ensures c.tasks == map[] && !c.running && c.armed == 0
    ensures WellFormed(store) ==> Valid(c)
    ensures Consistent(c)
  {
    CronnerState(store, DefaultCheckTime, map[], false, 0)
  }

  /**
   The record `scheduleTask` computes from the loaded record, or from a fresh
   record with `runs` at its default when none is loaded.
   */
  function NextRecord(t: CronTask, loaded: Option<ScheduleRecord>, now: Seconds): (r: ScheduleRecord)
    ensures r.taskName == (if loaded.Some? then loaded.value.taskName else t.taskName)
    ensures loaded.Some? ==> r.runs == loaded.value.runs + 1
    ensures loaded.None? ==> r.runs == 0
    ensures (r.runs >= 1 || t.firstRunAt.None?) ==> r.nextRun == now + t.runAfter
    ensures r.runs < 1 && t.firstRunAt.Some? ==> r.nextRun == t.firstRunAt.value
  {
    var date := now + t.runAfter;
    var base := if loaded.Some? then loaded.value else NewRecord(t.taskName, date);
    var runs := base.runs + 1;
    var nextRun := if runs < 1 && t.firstRunAt.Some? then t.firstRunAt.value else date;
    ScheduleRecord(base.taskName, nextRun, runs)
  }

  /** A one-shot task is retired once its record has been recomputed after a run. */
  predicate Retires(t: CronTask, r: ScheduleRecord) {
    t.runOnlyOnce && r.runs > 0
  }

  /** Deregisters `n` and deletes its record. */
  function RemoveTask(c: CronnerState, n: string): (c': CronnerState)
    ensures n !in c'.tasks && n !in c'.store
    ensures forall m :: m != n ==> LookupTask(c'.tasks, m) == LookupTask(c.tasks, m)
    ensures forall m :: m != n ==> Load(c'.store, m) == Load(c.store, m)
    ensures c'.checkTime == c.checkTime && c'.running == c.running && c'.armed == c.armed
    ensures Valid(c) ==> Valid(c')
    ensures Consistent(c) ==> Consistent(c')
  {
    c.(tasks := c.tasks - {n}, store := Remove(c.store, n))
  }

  /**
   Recomputes the record of `task` at instant `now`: saves it, or retires a
   one-shot task that has run. An absent task changes nothing.
   */
  function ScheduleTask(c: CronnerState, task: Option<CronTask>, now: Seconds): (c': CronnerState)
    requires WellFormed(c.store)
    ensures task.None? ==> c' == c
    ensures task.Some? ==>
      var n := task.value.taskName;
      var r := NextRecord(task.value, Load(c.store, n), now);
      && r.taskName == n
      && (Retires(task.value, r) ==> n !in c'.tasks && n !in c'.store)
      && (!Retires(task.value, r) ==> LookupTask(c'.tasks, n) == LookupTask(c.tasks, n) && Load(c'.store, n) == Some(r))
      && (forall m :: m != n ==> LookupTask(c'.tasks, m) == LookupTask(c.tasks, m))
      && (forall m :: m != n ==> Load(c'.store, m) == Load(c.store, m))
    ensures c'.checkTime == c.checkTime && c'.running == c.running && c'.armed == c.armed
    ensures WellFormed(c'.store)
    ensures Valid(c) ==> Valid(c')
    ensures Consistent(c) && (task.Some? ==> task.value.taskName in c.tasks) ==> Consistent(c')
  {
    match task
    case None => c
    case Some(t) =>
      var r := NextRecord(t, Load(c.store, t.taskName), now);
      if Retires(t, r) then RemoveTask(c, t.taskName)
      else c.(store := Save(c.store, r))
  }

  /**
   Registers `task` and schedules it at `now`. A name already in the registry
   is refused and nothing changes; the store is not consulted for duplicates.
   */
  function RegisterTask(c: CronnerState, task: CronTask, now: Seconds): (res: Result<CronnerState, CronnerError>)
    requires WellFormed(c.store)
    ensures res.Failure? <==> task.taskName in c.tasks
    ensures res.Failure? ==> res.error == DuplicateName
    ensures res.Success? ==>
      var c' := res.value;
      var n := task.taskName;
      var r := NextRecord(task, Load(c.store, n), now);
      && (Retires(task, r) ==> n !in c'.tasks && n !in c'.store)
      && (!Retires(task, r) ==> LookupTask(c'.tasks, n) == Some(task) && Load(c'.store, n) == Some(r))
      && (forall m :: m != n ==> LookupTask(c'.tasks, m) == LookupTask(c.tasks, m))
      && (forall m :: m != n ==> Load(c'.store, m) == Load(c.store, m))
      && c'.checkTime == c.checkTime && c'.running == c.running && c'.armed == c.armed
    ensures res.Success? && task.taskName !in c.store ==>
      && LookupTask(res.value.tasks, task.taskName) == Some(task)
      && Load(res.value.store, task.taskName).Some?
      && var r := res.value.store[task.taskName];
         && r.runs == 0
         && r.nextRun == (if task.firstRunAt.Some? then task.firstRunAt.value else now + task.runAfter)
    ensures res.Success? && Valid(c) ==> Valid(res.value)
    ensures res.Success? && Consistent(c) ==> Consistent(res.value)
  {
    if task.taskName in c.tasks then Failure(DuplicateName)
    else
      var registered := c.(tasks := c.tasks[task.taskName := task]);
      Success(ScheduleTask(registered, Some(task), now))
  }

  /** The dispatch log entry for running `task`; running an absent task does nothing. */
  function RunTask(task: Option<CronTask>): (log: seq<string>)
    ensures task.None? ==> log == []
    ensures task.Some? ==> log == [task.value.taskName]
  {
    match task
    case None => []
    case Some(t) => [t.taskName]
  }

  /**
   One iteration of the check loop over record `r` of the snapshot: an orphan
   record is deleted; a due task is dispatched and rescheduled.
   */
  function CheckRecord(c: CronnerState, now: Seconds, r: ScheduleRecord): (cy: Cycle)
    requires WellFormed(c.store)
    ensures WellFormed(cy.state.store)
    ensures cy.state.checkTime == c.checkTime && cy.state.running == c.running && cy.state.armed == c.armed
    ensures cy.state.tasks.Keys <= c.tasks.Keys
    ensures cy.dispatched != [] ==> r.taskName in c.tasks && cy.dispatched == [c.tasks[r.taskName].taskName]
  {
    var task := LookupTask(c.tasks, r.taskName);
    var c1 := if task.None? then c.(store := Remove(c.store, r.taskName)) else c;
    var runImmediately := task.Some? && task.value.runImmediately && r.runs < 1;
    if r.nextRun <= now || runImmediately then
      Cycle(ScheduleTask(c1, task, now), RunTask(task))
    else
      Cycle(c1, [])
  }

  /** The check loop over the snapshot, front to back. */
  function CheckRecords(c: CronnerState, now: Seconds, snap: seq<ScheduleRecord>): (cy: Cycle)
    requires WellFormed(c.store)
    ensures WellFormed(cy.state.store)
    ensures cy.state.checkTime == c.checkTime && cy.state.running == c.running && cy.state.armed == c.armed
    ensures cy.state.tasks.Keys <= c.tasks.Keys
    ensures |cy.dispatched| <= |snap|
    decreases |snap|
  {
    if snap == [] then Cycle(c, [])
    else
      var first := CheckRecord(c, now, snap[0]);
      var rest := CheckRecords(first.state, now, snap[1..]);
      Cycle(rest.state, first.dispatched + rest.dispatched)
  }

  /**
   One check cycle at instant `now` over `snap`, the store's listing taken at
   its start; afterwards the timer is re-armed while the scheduler runs.
   */
  function Check(c: CronnerState, now: Seconds, snap: seq<ScheduleRecord>): (cy: Cycle)
    requires WellFormed(c.store) && IsSnapshot(c.store, snap)
    ensures WellFormed(cy.state.store)
    ensures cy.state.checkTime == c.checkTime && cy.state.running == c.running
    ensures cy.state.armed == c.armed + (if c.running then 1 else 0)
    ensures cy.state.tasks.Keys <= c.tasks.Keys
    ensures |cy.dispatched| <= |c.store|
  {
    var cy := CheckRecords(c, now, snap);
    assert |snap| == |c.store| by { SnapshotSize(c.store, snap); }
    if cy.state.running then Cycle(cy.state.(armed := cy.state.armed + 1), cy.dispatched)
    else cy
  }

  /** A snapshot lists as many records as the store holds. */
  lemma SnapshotSize(s: Store, snap: seq<ScheduleRecord>)
    requires IsSnapshot(s, snap)
    ensures |snap| == |s|
  {
    var names := set i | 0 <= i < |snap| :: snap[i].taskName;
    assert names == s.Keys by {
      forall n | n in s ensures n in names {
        var i :| 0 <= i < |snap| && Names(snap)[i] == n;
      }
    }
    DistinctCard(snap);
  }

  /** The names of a sequence with distinct names are as many as its records. */
  lemma {:induction false} DistinctCard(snap: seq<ScheduleRecord>)
    requires DistinctNames(snap)
    ensures |set i | 0 <= i < |snap| :: snap[i].taskName| == |snap|
  {
    if snap != [] {
      var init := snap[..|snap| - 1];
      DistinctCard(init);
      var last := snap[|snap| - 1].taskName;
      assert (set i | 0 <= i < |snap| :: snap[i].taskName)
        == (set i | 0 <= i < |init| :: init[i].taskName) + {last};
      assert last !in (set i | 0 <= i < |init| :: init[i].taskName);
    }
  }

  /** Sets `running` and performs one check cycle at once. */
  function Resume(c: CronnerState, now: Seconds, snap: seq<ScheduleRecord>): (cy: Cycle)
    requires WellFormed(c.store) && IsSnapshot(c.store, snap)
    ensures cy.state.running
    ensures cy.state.armed == c.armed + 1
    ensures cy.state.checkTime == c.checkTime
    ensures cy.state.tasks.Keys <= c.tasks.Keys
  {
    Check(c.(running := true), now, snap)
  }

  /** Clears `running`; nothing else changes, and armed callbacks stay armed. */
  function Pause(c: CronnerState): (c': CronnerState)
    ensures !c'.running
    ensures c'.tasks == c.tasks && c'.store == c.store
    ensures c'.checkTime == c.checkTime && c'.armed == c.armed
  {
    c.(running := false)
  }

  /**
   An armed timer callback fires at `now`: it checks again only while the
   scheduler is running, and otherwise lets the chain end.
   */
  function Fire(c: CronnerState, now: Seconds, snap: seq<ScheduleRecord>): (cy: Cycle)
    requires c.armed > 0
    requires WellFormed(c.store) && IsSnapshot(c.store, snap)
    ensures !c.running ==> cy.dispatched == [] && cy.state == c.(armed := c.armed - 1)
    ensures c.running ==> cy.state.armed == c.armed && cy.state.running
  {
    var c1 := c.(armed := c.armed - 1);
    if c1.running then Check(c1, now, snap) else Cycle(c1, [])
  }
}
