/**
 What one check cycle does, name by name. `CycleSlot` is a reference
 definition of the cycle's effect on the task and record of a single name;
 `CheckSlot` proves that the fold over the snapshot agrees with it for every
 name, whatever order the snapshot lists the records in.
 */
module CycleProperties {
  import opened Wrappers
  import opened Tasks
  import opened CronnerStore
  import opened Cronner

  /** The registry entry and the store entry of one name. */
  datatype Slot = Slot(task: Option<CronTask>, record: Option<ScheduleRecord>)

  /** What a cycle leaves in a slot, and whether it dispatched the task. */
  datatype SlotOutcome = SlotOutcome(slot: Slot, dispatched: bool)

  function SlotOf(c: CronnerState, n: string): Slot {
    Slot(LookupTask(c.tasks, n), Load(c.store, n))
  }

  /** A registered task is due when its next run has come, or on its first run when immediate. */
  predicate Due(t: CronTask, r: ScheduleRecord, now: Seconds) {
    r.nextRun <= now || (t.runImmediately && r.runs < 1)
  }

  /** The number of times `n` occurs in a dispatch log. */
  function Count(log: seq<string>, n: string): nat {
    multiset(log)[n]
  }

  /**
   The effect of a cycle at `now` on one name: nothing without a record; an
   orphan record is dropped; a due task is dispatched and its record
   recomputed, or both are dropped when a one-shot task retires.
   */
  function CycleSlot(s: Slot, now: Seconds): SlotOutcome {
    match s
    case Slot(_, None) => SlotOutcome(s, false)
    case Slot(None, Some(_)) => SlotOutcome(Slot(None, None), false)
    case Slot(Some(t), Some(r)) =>
      if !Due(t, r, now) then SlotOutcome(s, false)
      else
        var r' := NextRecord(t, Some(r), now);
        if Retires(t, r') then SlotOutcome(Slot(None, None), true)
        else SlotOutcome(Slot(Some(t), Some(r')), true)
  }

  /** Visiting the record of one name acts on that name as `CycleSlot` says and leaves every other name alone. */
  lemma CheckRecordSlot(c: CronnerState, now: Seconds, r: ScheduleRecord)
    requires Valid(c)
    requires r.taskName in c.store && c.store[r.taskName] == r
    ensures var cy := CheckRecord(c, now, r);
      var o := CycleSlot(SlotOf(c, r.taskName), now);
      && Valid(cy.state)
      && SlotOf(cy.state, r.taskName) == o.slot
      && cy.dispatched == (if o.dispatched then [r.taskName] else [])
      && forall m :: m != r.taskName ==> SlotOf(cy.state, m) == SlotOf(c, m)
  {
  }

  /** The fold over a listing that matches the store acts on each listed name as `CycleSlot` says, and on no other. */
  lemma {:induction false} CheckRecordsSlot(c: CronnerState, now: Seconds, snap: seq<ScheduleRecord>, n: string)
    requires Valid(c)
    requires Matches(c.store, snap)
    ensures var cy := CheckRecords(c, now, snap);
      && Valid(cy.state)
      && (n in Names(snap) ==>
            && SlotOf(cy.state, n) == CycleSlot(SlotOf(c, n), now).slot
            && Count(cy.dispatched, n) == (if CycleSlot(SlotOf(c, n), now).dispatched then 1 else 0))
      && (n !in Names(snap) ==> SlotOf(cy.state, n) == SlotOf(c, n) && Count(cy.dispatched, n) == 0)
    decreases |snap|
  {
    if snap != [] {
      var r := snap[0];
      var first := CheckRecord(c, now, r);
      CheckRecordSlot(c, now, r);
      var tail := snap[1..];
      assert Matches(first.state.store, tail) by {
        forall i | 0 <= i < |tail|
          ensures tail[i].taskName in first.state.store && first.state.store[tail[i].taskName] == tail[i]
        {
          assert tail[i] == snap[i + 1];
          assert SlotOf(first.state, tail[i].taskName) == SlotOf(c, tail[i].taskName);
        }
      }
      CheckRecordsSlot(first.state, now, tail, n);
      var rest := CheckRecords(first.state, now, tail);
      assert multiset(first.dispatched + rest.dispatched) == multiset(first.dispatched) + multiset(rest.dispatched);
      assert Names(snap) == [r.taskName] + Names(tail);
      if n == r.taskName {
        assert n !in Names(tail) by {
          forall i | 0 <= i < |tail| ensures Names(tail)[i] != n {
            assert tail[i] == snap[i + 1];
          }
        }
      }
    }
  }

  /** A whole cycle acts on every name as `CycleSlot` says: once per name, whatever the snapshot order. */
  lemma CheckSlot(c: CronnerState, now: Seconds, snap: seq<ScheduleRecord>, n: string)
    requires Valid(c) && IsSnapshot(c.store, snap)
    ensures var cy := Check(c, now, snap);
      var o := CycleSlot(SlotOf(c, n), now);
      && Valid(cy.state)
      && SlotOf(cy.state, n) == o.slot
      && Count(cy.dispatched, n) == (if o.dispatched then 1 else 0)
  {
    CheckRecordsSlot(c, now, snap, n);
  }

  /** Resuming performs one full check cycle: every name is acted on as `CycleSlot` says. */
  lemma ResumeSlot(c: CronnerState, now: Seconds, snap: seq<ScheduleRecord>, n: string)
    requires Valid(c) && IsSnapshot(c.store, snap)
    ensures var cy := Resume(c, now, snap);
      var o := CycleSlot(SlotOf(c, n), now);
      && Valid(cy.state)
      && SlotOf(cy.state, n) == o.slot
      && Count(cy.dispatched, n) == (if o.dispatched then 1 else 0)
  {
    CheckSlot(c.(running := true), now, snap, n);
  }

  /**
   A timer callback performs a full check cycle while the scheduler runs; after
   a pause it changes no task or record and dispatches nothing.
   */
  lemma FireSlot(c: CronnerState, now: Seconds, snap: seq<ScheduleRecord>, n: string)
    requires c.armed > 0
    requires Valid(c) && IsSnapshot(c.store, snap)
    ensures var cy := Fire(c, now, snap);
      var o := CycleSlot(SlotOf(c, n), now);
      && Valid(cy.state)
      && (c.running ==> SlotOf(cy.state, n) == o.slot && Count(cy.dispatched, n) == (if o.dispatched then 1 else 0))
      && (!c.running ==> SlotOf(cy.state, n) == SlotOf(c, n) && Count(cy.dispatched, n) == 0)
  {
    if c.running {
      CheckSlot(c.(armed := c.armed - 1), now, snap, n);
    }
  }

  /** A record whose name is not registered is deleted, and nothing is dispatched for it. */
  lemma CheckRemovesOrphan(c: CronnerState, now: Seconds, snap: seq<ScheduleRecord>, n: string)
    requires Valid(c) && IsSnapshot(c.store, snap)
    requires n in c.store && n !in c.tasks
    ensures var cy := Check(c, now, snap);
      n !in cy.state.store && n !in cy.state.tasks && n !in cy.dispatched
  {
    CheckSlot(c, now, snap, n);
  }

  /**
   A registered task with a record is dispatched in a cycle exactly when it is
   due, and then rescheduled; a task that is not due keeps its record.
   */
  lemma CheckDispatchesIffDue(c: CronnerState, now: Seconds, snap: seq<ScheduleRecord>, n: string)
    requires Valid(c) && IsSnapshot(c.store, snap)
    requires n in c.tasks && n in c.store
    ensures var cy := Check(c, now, snap);
      var t := c.tasks[n];
      var r := c.store[n];
      var r' := NextRecord(t, Some(r), now);
      && ((n in cy.dispatched) <==> Due(t, r, now))
      && Count(cy.dispatched, n) <= 1
      && (!Due(t, r, now) ==> LookupTask(cy.state.tasks, n) == Some(t) && Load(cy.state.store, n) == Some(r))
      && (Due(t, r, now) && !Retires(t, r') ==> LookupTask(cy.state.tasks, n) == Some(t) && Load(cy.state.store, n) == Some(r'))
      && (Due(t, r, now) && Retires(t, r') ==> n !in cy.state.tasks && n !in cy.state.store)
  {
    CheckSlot(c, now, snap, n);
  }

  /** Only tasks registered when the cycle starts are dispatched, each at most once. */
  lemma CheckDispatchesRegisteredOnce(c: CronnerState, now: Seconds, snap: seq<ScheduleRecord>, n: string)
    requires Valid(c) && IsSnapshot(c.store, snap)
    ensures var cy := Check(c, now, snap);
      && Count(cy.dispatched, n) <= 1
      && (n in cy.dispatched ==> n in c.tasks && n in c.store)
  {
    CheckSlot(c, now, snap, n);
  }

  /**
   A cycle keeps a consistent scheduler consistent and removes all drift:
   afterwards the store holds a record exactly for the registered names.
   */
  lemma CheckHealsStore(c: CronnerState, now: Seconds, snap: seq<ScheduleRecord>)
    requires Valid(c) && IsSnapshot(c.store, snap)
    requires Consistent(c)
    ensures var cy := Check(c, now, snap);
      Valid(cy.state) && Consistent(cy.state) && cy.state.store.Keys == cy.state.tasks.Keys
  {
    var cy := Check(c, now, snap);
    forall n ensures n in cy.state.store <==> n in cy.state.tasks {
      CheckSlot(c, now, snap, n);
    }
    // Valid(cy.state) holds for any name's instance of CheckSlot; the empty name is just one such instance.
    CheckSlot(c, now, snap, "");
  }

  /** Once a task has completed a run (`runs >= 1`), `runImmediately` no longer matters: it is due only when its next run has come. */
  lemma ImmediateOnlyFirst(t: CronTask, r: ScheduleRecord, now: Seconds)
    requires r.runs >= 1
    ensures Due(t, r, now) <==> r.nextRun <= now
  {
  }

  /**
   A recomputed record does not depend on the previous next run: two loaded
   records that differ only in `nextRun` give the same result.
   */
  lemma NextRunIgnoresPrevious(t: CronTask, r: ScheduleRecord, other: Seconds, now: Seconds)
    ensures NextRecord(t, Some(r), now) == NextRecord(t, Some(r.(nextRun := other)), now)
  {
  }

  /**
   An immediate recurring task whose record has `runs == 0` runs at the first
   cycle whatever its offset, and its next run is then the offset
   after that cycle, so it is not due again before.
   */
  lemma ImmediateFirstThenOffset(t: CronTask, r: ScheduleRecord, now: Seconds, later: Seconds)
    requires t.runImmediately && !t.runOnlyOnce
    requires r.runs == 0
    requires later < now + t.runAfter
    ensures var o := CycleSlot(Slot(Some(t), Some(r)), now);
      && o.dispatched
      && o.slot.record.Some? && o.slot.record.value.runs == 1
      && o.slot.record.value.nextRun == now + t.runAfter
      && !CycleSlot(o.slot, later).dispatched
  {
  }

  /**
   Duplicates are detected in the registry only. A one-shot task registered
   under a name whose stale record has already been scheduled (`runs >= 0`)
   is accepted but retired at once: it is never dispatched.
   */
  lemma ReRegisteredOnceTaskRetires(c: CronnerState, t: CronTask, now: Seconds)
    requires Valid(c)
    requires t.runOnlyOnce && t.taskName !in c.tasks
    requires t.taskName in c.store && c.store[t.taskName].runs >= 0
    ensures var res := RegisterTask(c, t, now);
      && res.Success?
      && t.taskName !in res.value.tasks && t.taskName !in res.value.store
  {
  }

  /**
   A recurring task registered under a name that still has a record resumes
   that record's count instead of starting from the default.
   */
  lemma ReRegisteredTaskKeepsCount(c: CronnerState, t: CronTask, now: Seconds)
    requires Valid(c)
    requires !t.runOnlyOnce && t.taskName !in c.tasks && t.taskName in c.store
    ensures var res := RegisterTask(c, t, now);
      && res.Success?
      && t.taskName in res.value.store
      && res.value.store[t.taskName].runs == c.store[t.taskName].runs + 1
  {
  }

  /**
   A first-run instant applies only to a record's first scheduling: a task
   registered over a leftover record that was already scheduled runs after
   its offset instead.
   */
  lemma LeftoverRecordIgnoresFirstRun(c: CronnerState, t: CronTask, now: Seconds)
    requires Valid(c)
    requires !t.runOnlyOnce && t.taskName !in c.tasks
    requires t.taskName in c.store && c.store[t.taskName].runs >= 0
    ensures var res := RegisterTask(c, t, now);
      && res.Success?
      && t.taskName in res.value.store
      && res.value.store[t.taskName].nextRun == now + t.runAfter
  {
  }
}
