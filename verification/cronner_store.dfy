/**
 The persistence contract of the scheduler: schedule records keyed by task
 name. The store is a finite map from name to record; `Save`, `Load`,
 `Remove` and `LoadAll` are the protocol's four operations on it.
 */
module CronnerStore {
  import opened Wrappers
  import opened Tasks

  /** The scheduling state of one task. */
  datatype ScheduleRecord = ScheduleRecord(taskName: string, nextRun: Seconds, runs: int)

  /** The default of `runs`: the task has never been scheduled. */
  const NeverScheduled: int := -1

  /** A record built without `runs` takes the default. */
  function NewRecord(taskName: string, nextRun: Seconds): (r: ScheduleRecord)
    ensures r.taskName == taskName && r.nextRun == nextRun
    ensures r.runs == -1
  {
    ScheduleRecord(taskName, nextRun, NeverScheduled)
  }

  type Store = map<string, ScheduleRecord>

  /** Every record is filed under its own task name: one record per name. */
  predicate WellFormed(s: Store) {
    forall n :: n in s ==> s[n].taskName == n
  }

  /** Returns the record for `n`, or None when there is none. */
  function Load(s: Store, n: string): (r: Option<ScheduleRecord>)
    ensures r.None? <==> n !in s
    ensures r.Some? ==> r.value in s.Values
    ensures WellFormed(s) && r.Some? ==> r.value.taskName == n
  {
    if n in s then Some(s[n]) else None
  }

  /** Inserts `r`, replacing any earlier record with the same name. */
  function Save(s: Store, r: ScheduleRecord): (s': Store)
    ensures Load(s', r.taskName) == Some(r)
    ensures forall n :: n != r.taskName ==> Load(s', n) == Load(s, n)
    ensures s'.Keys == s.Keys + {r.taskName}
    ensures WellFormed(s) ==> WellFormed(s')
  {
    s[r.taskName := r]
  }

  /** Deletes the record for `n`; a no-op when there is none. */
  function Remove(s: Store, n: string): (s': Store)
    ensures Load(s', n) == None
    ensures forall m :: m != n ==> Load(s', m) == Load(s, m)
    ensures s'.Keys == s.Keys - {n}
    ensures n !in s ==> s' == s
    ensures WellFormed(s) ==> WellFormed(s')
  {
    s - {n}
  }

  /** The task names of a sequence of records, in order. */
  function Names(snap: seq<ScheduleRecord>): (ns: seq<string>)
    ensures |ns| == |snap|
    ensures forall i :: 0 <= i < |snap| ==> ns[i] == snap[i].taskName
  {
    seq(|snap|, i requires 0 <= i < |snap| => snap[i].taskName)
  }

  /** No task name occurs twice in `snap`. */
  predicate DistinctNames(snap: seq<ScheduleRecord>) {
    forall i, j :: 0 <= i < j < |snap| ==> snap[i].taskName != snap[j].taskName
  }

  /** Each record of `snap` is the record `s` holds under its name, one per name. */
  predicate Matches(s: Store, snap: seq<ScheduleRecord>) {
    && DistinctNames(snap)
    && forall i :: 0 <= i < |snap| ==> snap[i].taskName in s && s[snap[i].taskName] == snap[i]
  }

  /**
   `snap` is a point-in-time listing of `s` in some order: every stored record
   exactly once.
   */
  predicate IsSnapshot(s: Store, snap: seq<ScheduleRecord>) {
    && Matches(s, snap)
    && forall n :: n in s ==> n in Names(snap)
  }

  /** Lists every stored record once, in an unspecified order. */
  method LoadAll(s: Store) returns (snap: seq<ScheduleRecord>)
    requires WellFormed(s)
    ensures IsSnapshot(s, snap)
    ensures forall r :: r in snap <==> r in s.Values
    ensures |snap| == |s|
  {
    snap := [];
    var rest := s.Keys;
    while rest != {}
      invariant rest <= s.Keys
      invariant Matches(s, snap)
      invariant forall i :: 0 <= i < |snap| ==> snap[i].taskName !in rest
      invariant forall n :: n in s && n !in rest ==> n in Names(snap)
      invariant |snap| + |rest| == |s|
      decreases rest
    {
      var k :| k in rest;
      assert Names(snap + [s[k]]) == Names(snap) + [k];
      snap := snap + [s[k]];
      rest := rest - {k};
    }
    forall r | r in s.Values
      ensures r in snap
    {
      var n :| n in s && s[n] == r;
      assert n in Names(snap);
      var i :| 0 <= i < |snap| && Names(snap)[i] == n;
      assert snap[i] == r;
    }
  }
}
