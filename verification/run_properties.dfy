/**
 Successive check cycles. `Run` chains whole-state cycles; `SlotRun` chains
 the per-name reference `CycleSlot`. `RunSlot` connects the two, so that the
 long-run properties of a task (how often it runs, when it is retired) are
 proved on one name and carried over to the whole scheduler.
 */
module RunProperties {
  import opened Wrappers
  import opened Tasks
  import opened CronnerStore
  import opened Cronner
  import opened CycleProperties

  /** One check cycle: its instant and the store listing taken at its start. */
  datatype Tick = Tick(now: Seconds, snap: seq<ScheduleRecord>)

  /** The outcome of several cycles on one name: the final slot and how often the task was dispatched. */
  datatype SlotRunOutcome = SlotRunOutcome(slot: Slot, count: nat)

  function Nows(ticks: seq<Tick>): (nows: seq<Seconds>)
    ensures |nows| == |ticks|
    ensures forall i :: 0 <= i < |ticks| ==> nows[i] == ticks[i].now
  {
    seq(|ticks|, i requires 0 <= i < |ticks| => ticks[i].now)
  }

  /** Each tick's listing is a snapshot of the store as the previous cycles left it. */
  predicate ValidTicks(c: CronnerState, ticks: seq<Tick>)
    decreases |ticks|
  {
    && WellFormed(c.store)
    && (ticks != [] ==>
          && IsSnapshot(c.store, ticks[0].snap)
          && ValidTicks(Check(c, ticks[0].now, ticks[0].snap).state, ticks[1..]))
  }

  /** The cycles of `ticks` in turn, with their dispatch logs concatenated. */
  function Run(c: CronnerState, ticks: seq<Tick>): (cy: Cycle)
    requires ValidTicks(c, ticks)
    ensures WellFormed(cy.state.store)
    ensures cy.state.tasks.Keys <= c.tasks.Keys
    ensures cy.state.checkTime == c.checkTime && cy.state.running == c.running
    decreases |ticks|
  {
    if ticks == [] then Cycle(c, [])
    else
      var first := Check(c, ticks[0].now, ticks[0].snap);
      var rest := Run(first.state, ticks[1..]);
      Cycle(rest.state, first.dispatched + rest.dispatched)
  }

  /** `CycleSlot` applied at each instant in turn, counting dispatches. */
  function SlotRun(s: Slot, nows: seq<Seconds>): SlotRunOutcome
    decreases |nows|
  {
    if nows == [] then SlotRunOutcome(s, 0)
    else
      var o := CycleSlot(s, nows[0]);
      var rest := SlotRun(o.slot, nows[1..]);
      SlotRunOutcome(rest.slot, rest.count + (if o.dispatched then 1 else 0))
  }

  /** Several cycles act on each name as the per-name reference says, and dispatch it as often. */
  lemma {:induction false} RunSlot(c: CronnerState, ticks: seq<Tick>, n: string)
    requires Valid(c) && ValidTicks(c, ticks)
    ensures var cy := Run(c, ticks);
      && Valid(cy.state)
      && SlotOf(cy.state, n) == SlotRun(SlotOf(c, n), Nows(ticks)).slot
      && Count(cy.dispatched, n) == SlotRun(SlotOf(c, n), Nows(ticks)).count
    decreases |ticks|
  {
    if ticks != [] {
      var first := Check(c, ticks[0].now, ticks[0].snap);
      CheckSlot(c, ticks[0].now, ticks[0].snap, n);
      assert Nows(ticks)[1..] == Nows(ticks[1..]);
      RunSlot(first.state, ticks[1..], n);
      var rest := Run(first.state, ticks[1..]);
      assert multiset(first.dispatched + rest.dispatched) == multiset(first.dispatched) + multiset(rest.dispatched);
    }
  }

  /** Nothing happens to a name with neither task nor record. */
  lemma {:induction false} EmptySlotRun(nows: seq<Seconds>)
    ensures SlotRun(Slot(None, None), nows) == SlotRunOutcome(Slot(None, None), 0)
    decreases |nows|
  {
    if nows != [] {
      EmptySlotRun(nows[1..]);
    }
  }

  /**
   A recurring task stays registered with a record, and its `runs` grows by
   exactly the number of cycles in which it was due.
   */
  lemma {:induction false} RecurringSlotRun(t: CronTask, r: ScheduleRecord, nows: seq<Seconds>)
    requires !t.runOnlyOnce
    ensures var o := SlotRun(Slot(Some(t), Some(r)), nows);
      && o.slot.task == Some(t)
      && o.slot.record.Some?
      && o.slot.record.value.runs == r.runs + o.count
      && o.slot.record.value.runs >= r.runs
    decreases |nows|
  {
    if nows != [] {
      var first := CycleSlot(Slot(Some(t), Some(r)), nows[0]);
      RecurringSlotRun(t, first.slot.record.value, nows[1..]);
    }
  }

  /**
   A scheduled one-shot task is dispatched at most once; if it is, both its
   registration and its record are gone afterwards, and otherwise nothing changed.
   */
  lemma {:induction false} OnceSlotRun(t: CronTask, r: ScheduleRecord, nows: seq<Seconds>)
    requires t.runOnlyOnce && r.runs >= 0
    ensures var o := SlotRun(Slot(Some(t), Some(r)), nows);
      && o.count <= 1
      && (o.count == 1 ==> o.slot == Slot(None, None))
      && (o.count == 0 ==> o.slot == Slot(Some(t), Some(r)))
    decreases |nows|
  {
    if nows != [] {
      var first := CycleSlot(Slot(Some(t), Some(r)), nows[0]);
      if first.dispatched {
        EmptySlotRun(nows[1..]);
      } else {
        OnceSlotRun(t, r, nows[1..]);
      }
    }
  }

  /** A task not owed an immediate run is never dispatched, and its record kept, while every cycle comes before its next run. */
  lemma {:induction false} QuietWindow(t: CronTask, r: ScheduleRecord, nows: seq<Seconds>)
    requires !(t.runImmediately && r.runs < 1)
    requires forall i :: 0 <= i < |nows| ==> nows[i] < r.nextRun
    ensures SlotRun(Slot(Some(t), Some(r)), nows) == SlotRunOutcome(Slot(Some(t), Some(r)), 0)
    decreases |nows|
  {
    if nows != [] {
      QuietWindow(t, r, nows[1..]);
    }
  }

  /** A freshly registered one-shot immediate task runs exactly once in any non-empty series of cycles. */
  lemma {:induction false} OnceImmediateSlotRun(t: CronTask, r: ScheduleRecord, nows: seq<Seconds>)
    requires t.runOnlyOnce && t.runImmediately && r.runs == 0
    requires |nows| >= 1
    ensures SlotRun(Slot(Some(t), Some(r)), nows) == SlotRunOutcome(Slot(None, None), 1)
  {
    var first := CycleSlot(Slot(Some(t), Some(r)), nows[0]);
    assert first == SlotOutcome(Slot(None, None), true);
    EmptySlotRun(nows[1..]);
  }

  /** The scheduler after registering a task whose name has neither a registration nor a record. */
  function RegisterFresh(c: CronnerState, t: CronTask, now: Seconds): (c': CronnerState)
    requires Valid(c) && t.taskName !in c.tasks
    ensures Valid(c')
    ensures c'.running == c.running
  {
    RegisterTask(c, t, now).value
  }

  /**
   A recurring task registered under a fresh name stays registered through
   any series of cycles, and its `runs` equals the number of times it was dispatched.
   */
  lemma {:induction false} RecurringRunsEqualDispatches(c: CronnerState, t: CronTask, now: Seconds, ticks: seq<Tick>)
    requires Valid(c) && t.taskName !in c.tasks && t.taskName !in c.store
    requires !t.runOnlyOnce
    requires ValidTicks(RegisterFresh(c, t, now), ticks)
    ensures var cy := Run(RegisterFresh(c, t, now), ticks);
      && LookupTask(cy.state.tasks, t.taskName) == Some(t)
      && t.taskName in cy.state.store
      && cy.state.store[t.taskName].runs == Count(cy.dispatched, t.taskName)
  {
    var c' := RegisterFresh(c, t, now);
    RunSlot(c', ticks, t.taskName);
    RecurringSlotRun(t, c'.store[t.taskName], Nows(ticks));
  }

  /**
   A one-shot task registered under a fresh name is dispatched at most once;
   once it has been, neither its registration nor its record remains.
   */
  lemma {:induction false} OnceRunsAtMostOnce(c: CronnerState, t: CronTask, now: Seconds, ticks: seq<Tick>)
    requires Valid(c) && t.taskName !in c.tasks && t.taskName !in c.store
    requires t.runOnlyOnce
    requires ValidTicks(RegisterFresh(c, t, now), ticks)
    ensures var cy := Run(RegisterFresh(c, t, now), ticks);
      && Count(cy.dispatched, t.taskName) <= 1
      && (Count(cy.dispatched, t.taskName) == 1 ==> t.taskName !in cy.state.tasks && t.taskName !in cy.state.store)
  {
    var c' := RegisterFresh(c, t, now);
    RunSlot(c', ticks, t.taskName);
    OnceSlotRun(t, c'.store[t.taskName], Nows(ticks));
  }

  /** A one-shot immediate task registered under a fresh name runs exactly once in any non-empty series of cycles. */
  lemma {:induction false} OnceImmediateRunsExactlyOnce(c: CronnerState, t: CronTask, now: Seconds, ticks: seq<Tick>)
    requires Valid(c) && t.taskName !in c.tasks && t.taskName !in c.store
    requires t.runOnlyOnce && t.runImmediately
    requires |ticks| >= 1
    requires ValidTicks(RegisterFresh(c, t, now), ticks)
    ensures var cy := Run(RegisterFresh(c, t, now), ticks);
      && Count(cy.dispatched, t.taskName) == 1
      && t.taskName !in cy.state.tasks && t.taskName !in cy.state.store
  {
    var c' := RegisterFresh(c, t, now);
    RunSlot(c', ticks, t.taskName);
    OnceImmediateSlotRun(t, c'.store[t.taskName], Nows(ticks));
  }

  /**
   A task that is neither immediate nor given a first-run instant, registered
   under a fresh name at `now`, is not dispatched by any cycle before
   `now + runAfter`.
   */
  lemma {:induction false} NotDispatchedBeforeOffset(c: CronnerState, t: CronTask, now: Seconds, ticks: seq<Tick>)
    requires Valid(c) && t.taskName !in c.tasks && t.taskName !in c.store
    requires !t.runImmediately && t.firstRunAt.None?
    requires forall i :: 0 <= i < |ticks| ==> ticks[i].now < now + t.runAfter
    requires ValidTicks(RegisterFresh(c, t, now), ticks)
    ensures t.taskName !in Run(RegisterFresh(c, t, now), ticks).dispatched
  {
    var c' := RegisterFresh(c, t, now);
    RunSlot(c', ticks, t.taskName);
    QuietWindow(t, c'.store[t.taskName], Nows(ticks));
  }

  /**
   A task that is not immediate, registered under a fresh name with a
   first-run instant, is not dispatched by any cycle before that instant: the
   offset does not apply to the first run.
   */
  lemma {:induction false} NotDispatchedBeforeFirstRun(c: CronnerState, t: CronTask, now: Seconds, ticks: seq<Tick>)
    requires Valid(c) && t.taskName !in c.tasks && t.taskName !in c.store
    requires !t.runImmediately && t.firstRunAt.Some?
    requires forall i :: 0 <= i < |ticks| ==> ticks[i].now < t.firstRunAt.value
    requires ValidTicks(RegisterFresh(c, t, now), ticks)
    ensures t.taskName !in Run(RegisterFresh(c, t, now), ticks).dispatched
  {
    var c' := RegisterFresh(c, t, now);
    RunSlot(c', ticks, t.taskName);
    QuietWindow(t, c'.store[t.taskName], Nows(ticks));
  }
}
