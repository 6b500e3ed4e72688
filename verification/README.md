# Cronner scheduling engine in Dafny

Cronner is an in-process periodic task scheduler. Callers register named
tasks (`CronTask`), each with a recurrence policy: run once or repeatedly, run
immediately on the first check or not, an offset `runAfter` in seconds, and an
optional absolute first-run instant. The scheduler keeps a registry of tasks
and a pluggable store of `ScheduleRecord`s (`taskName`, `nextRun`, `runs`).
A timer polls the store every `checkTime` seconds. Each check lists all
records, deletes records whose task is no longer registered, dispatches every
due task and recomputes its record.

This project models that engine as a pure state machine:

- `wrappers.dfy`: `Option` and `Result`, standing for Swift optionals and thrown errors.
- `tasks.dfy`: the `CronTask` configuration as an immutable datatype.
- `cronner_store.dfy`: `ScheduleRecord` with its `runs = -1` default, and the store
  protocol (`Save`, `Load`, `Remove`, `LoadAll`) over a `map<string, ScheduleRecord>`.
- `cronner.dfy`: the scheduler state: store, interval, registry, running flag and
  the number of armed timer callbacks. It holds the three initialisers,
  `RegisterTask`, `ScheduleTask`, `RemoveTask`, `Pause`, `Resume`, one check
  cycle (`Check`, a fold over the store listing) and a timer callback (`Fire`).
- `cycle_properties.dfy`: `CycleSlot` is a reference definition of what one cycle
  does to the task and record of a single name. `CheckSlot` proves that the fold
  over the listing agrees with it for every name, whatever order the store
  lists records in. Orphan cleanup, due-ness and drift healing follow from it.
- `run_properties.dfy`: series of cycles. It shows how often a task runs,
  when a one-shot task retires, and when a task stays quiet.

Time is an integer number of seconds, passed in as `now`. Dispatching a task
appends its name to the cycle's `dispatched` log. The listing the store
returns at the start of a cycle is a parameter constrained by `IsSnapshot`.
The `LoadAll` method shows that such a listing exists for every well-formed store.

Where the code does something a reader might not expect, the model follows the code:

- The check loop calls `store.getAll()` (Cronner.swift:102), but the store protocol
  declares `loadAll()` (CronnerStore.swift:44). The model calls it `LoadAll`.
- `resume` on a scheduler that is already running is not a no-op. It runs another
  check at once and arms a second timer chain (Cronner.swift:82-85, 120-130);
  `Resume` increments `armed` every time.
- Duplicate names are detected in the registry only (Cronner.swift:73). A
  leftover store record under a new task's name is reused, and its `runs`
  continues (`ReRegisteredTaskKeepsCount`). A one-shot task registered over
  a record with `runs >= 0` is accepted but retired at once, so it never runs
  (`ReRegisteredOnceTaskRetires`). A leftover record also makes a recurring
  task's first-run instant ignored: `runs` becomes at least 1 at Cronner.swift:145, so
  the override at Cronner.swift:148-150 is skipped and the next run is
  `now + runAfter`.
- `scheduleTask` loads the record again from the store (Cronner.swift:141). It does
  not use the listing's copy. Due-ness is decided on the listing's copy
  (Cronner.swift:112-114).

## Model

| member | source | states |
|---|---|---|
| CronnerStore.NewRecord | Sources/Cronner/CronnerStore.swift:53-57 | a record built without `runs` has `runs == -1` |
| CronnerStore.Load | Sources/Cronner/CronnerStore.swift:35-39 | the result is absent exactly when no record has that name; in a well-formed store the record returned carries the name asked for |
| CronnerStore.Save | Sources/Cronner/CronnerStore.swift:29-33 | after saving `r`, loading `r.taskName` gives `r`, replacing any earlier record; every other name loads as before; well-formedness is kept |
| CronnerStore.Remove | Sources/Cronner/CronnerStore.swift:46-50 | afterwards the name loads as absent and every other name loads as before; removing an absent name changes nothing |
| CronnerStore.LoadAll | Sources/Cronner/CronnerStore.swift:41-44 | returns every stored record exactly once (one per task name), with nothing else, in some order |
| Cronner.Init | Sources/Cronner/Cronner.swift:38-41 | the default scheduler checks every 10 seconds, has an empty in-memory store and registry, and is not running |
| Cronner.InitWithCheckTime | Sources/Cronner/Cronner.swift:48-51 | a requested interval of 0 becomes 1 and any other value is kept, so the interval is at least 1; the given store is used, or an empty one when none is given |
| Cronner.InitWithStore | Sources/Cronner/Cronner.swift:56-59 | the given store is used with the default 10-second interval |
| Cronner.NextRecord | Sources/Cronner/Cronner.swift:140-150 | `runs` is one more than the loaded record's, or 0 from the default; `nextRun` is `now + runAfter`, except on the first scheduling (`runs < 1`) when a first-run instant is given and is then used instead |
| Cronner.ScheduleTask | Sources/Cronner/Cronner.swift:136-158 | an absent task changes nothing; a one-shot task whose new `runs` is above 0 leaves neither a registration nor a record; otherwise the new record is saved under the task's name; no other name, and not the interval or flags, changes |
| Cronner.RemoveTask | Sources/Cronner/Cronner.swift:163-166 | the name ends up in neither the registry nor the store; every other name keeps its task and record |
| Cronner.RegisterTask | Sources/Cronner/Cronner.swift:69-79 | fails with `DuplicateName` exactly when the name is already registered, with no state change; otherwise registers and schedules the task. A name with no prior record gets a record with `runs == 0` whose next run is the first-run instant if given, else `now + runAfter` |
| Cronner.RunTask | Sources/Cronner/Cronner.swift:171-175 | running an absent task dispatches nothing; running a task logs its name once |
| Cronner.CheckRecord | Sources/Cronner/Cronner.swift:104-117 | processing one listed record dispatches nothing, or once the task registered under that record's name (never an orphan); it keeps the store well-formed, never registers a task, and keeps the interval, running flag and armed count |
| Cronner.CheckRecords | Sources/Cronner/Cronner.swift:102-118 | the loop over the listing keeps the store well-formed, never registers a task, dispatches at most one name per listed record, and keeps the interval, running flag and armed count |
| Cronner.Check | Sources/Cronner/Cronner.swift:98-131 | a cycle never registers a task, dispatches at most one task per stored record, keeps the interval and running flag, and re-arms the timer exactly when running |
| Cronner.Resume | Sources/Cronner/Cronner.swift:82-85 | sets running and arms one more timer callback, even when already running; never registers a task |
| CycleProperties.ResumeSlot | Sources/Cronner/Cronner.swift:82-85 | resuming performs one full check cycle: every name's task and record change, and it is dispatched, exactly as the per-name reference says |
| Cronner.Pause | Sources/Cronner/Cronner.swift:88-90 | only clears running; registry, store, interval and armed callbacks are unchanged |
| Cronner.Fire | Sources/Cronner/Cronner.swift:120-130 | a callback that fires after a pause dispatches nothing and ends its chain; while running it re-arms |
| CycleProperties.FireSlot | Sources/Cronner/Cronner.swift:125-128 | while running, a firing callback performs one full check cycle, acting on every name as the per-name reference says; after a pause it changes no task or record and dispatches nothing |
| CycleProperties.CheckRecordSlot | Sources/Cronner/Cronner.swift:104-117 | processing one listed record acts on its name as the per-name reference says and leaves every other name's task and record alone |
| CycleProperties.CheckRecordsSlot | Sources/Cronner/Cronner.swift:102-118 | the loop over a listing that matches the store acts on each listed name as the per-name reference says, dispatches it at most once, and touches no unlisted name |
| CycleProperties.CheckSlot | Sources/Cronner/Cronner.swift:98-118 | a whole cycle acts on every name as the per-name reference says, whatever order the store lists records in |
| CycleProperties.CheckRemovesOrphan | Sources/Cronner/Cronner.swift:104-109 | a record whose name is not registered is deleted, and nothing is dispatched or scheduled for it |
| CycleProperties.CheckDispatchesIffDue | Sources/Cronner/Cronner.swift:111-117 | a registered task is dispatched exactly when `nextRun <= now` or it is immediate with `runs < 1`; if it was due its record is recomputed (or it retires), otherwise its task and record are unchanged |
| CycleProperties.CheckDispatchesRegisteredOnce | Sources/Cronner/Cronner.swift:102-117 | only tasks that are registered and have a record at the start of the cycle are dispatched, each at most once |
| CycleProperties.CheckHealsStore | Sources/Cronner/Cronner.swift:102-118 | if every registered task has a record beforehand, then afterwards the store holds a record for exactly the registered names |
| CycleProperties.ImmediateOnlyFirst | Sources/Cronner/Cronner.swift:111-114 | once a task has completed a run (`runs >= 1`) it is due only when its next run has come, immediate or not |
| CycleProperties.NextRunIgnoresPrevious | Sources/Cronner/Cronner.swift:140-145 | the recomputed record does not depend on the previous `nextRun` |
| CycleProperties.ImmediateFirstThenOffset | Sources/Cronner/Cronner.swift:111-145 | an immediate recurring task with `runs == 0` runs at the next cycle whatever its offset; its next run is then the offset after that cycle, and it is not due again before then |
| CycleProperties.ReRegisteredOnceTaskRetires | Sources/Cronner/Cronner.swift:69-79 | a one-shot task registered over a record with `runs >= 0` is accepted, and leaves neither a registration nor a record |
| CycleProperties.LeftoverRecordIgnoresFirstRun | Sources/Cronner/Cronner.swift:141-150 | a recurring task registered over a leftover record with `runs >= 0` gets its next run at `now + runAfter`, its first-run instant ignored |
| CycleProperties.ReRegisteredTaskKeepsCount | Sources/Cronner/Cronner.swift:141-145 | a recurring task registered over a leftover record continues that record's `runs` |
| RunProperties.RunSlot | Sources/Cronner/Cronner.swift:98-131 | a series of cycles acts on each name as the per-name reference applied cycle by cycle, and dispatches it as many times |
| RunProperties.RecurringSlotRun | Sources/Cronner/Cronner.swift:141-157 | a recurring task stays registered with a record, and its `runs` grows by exactly the number of cycles in which it was due |
| RunProperties.OnceSlotRun | Sources/Cronner/Cronner.swift:153-155 | a scheduled one-shot task is dispatched at most once; then both its registration and record are gone |
| RunProperties.QuietWindow | Sources/Cronner/Cronner.swift:111-114 | a task not owed an immediate run is never dispatched, and keeps its record, while every cycle comes before its next run |
| RunProperties.OnceImmediateSlotRun | Sources/Cronner/Cronner.swift:111-155 | a scheduled one-shot immediate task runs exactly once in any non-empty series of cycles and then retires |
| RunProperties.RecurringRunsEqualDispatches | Sources/Cronner/Cronner.swift:141-157 | a recurring task registered under a fresh name stays registered, and its `runs` equals the number of times it was dispatched |
| RunProperties.OnceRunsAtMostOnce | Sources/Cronner/Cronner.swift:153-155 | a one-shot task registered under a fresh name is dispatched at most once; after that neither its registration nor its record remains |
| RunProperties.OnceImmediateRunsExactlyOnce | Tests/CronnerTests/CronnerTests.swift:64-86 | a one-shot immediate task registered under a fresh name runs exactly once in any non-empty series of cycles, as the test expects of its first task |
| RunProperties.NotDispatchedBeforeOffset | Tests/CronnerTests/CronnerTests.swift:66-86 | a task that is neither immediate nor given a first-run instant is not dispatched by any cycle before registration time plus `runAfter`, as the test expects of its third task |
| RunProperties.NotDispatchedBeforeFirstRun | Sources/Cronner/CronTask.swift:48-53 | a task registered under a fresh name (no registration, no record) with a first-run instant is not dispatched before that instant unless it is immediate |

## Left out

- Timers and asynchronous dispatch (`DispatchQueue`, Cronner.swift:122-129, 171-175): a cycle is a step function, and dispatch appends to a log. The timer chain is reduced to a count of armed callbacks. When a callback fires is up to the caller of `Fire`.
- Concurrency: thread safety of the store and registry, and races between registration, the poll loop and running tasks, are not modelled. Every operation is atomic.
- `Date` and `TimeInterval` are floating point wall-clock values; the model uses integer seconds. The source reads the clock again inside `scheduleTask` (Cronner.swift:140). The model schedules every record of a cycle at the cycle's own instant.
- Swift `Int` overflow traps: `runs + 1` (Cronner.swift:145), `checkTime * 1_000_000_000` (Cronner.swift:123), converting an oversized `UInt` interval (Cronner.swift:49) and `TimeInterval(exactly:)` failing for large offsets (Cronner.swift:140). Integers are unbounded in the model.
- `InMemoryStore` is not part of this model. The default store is taken to start empty. Durable stores appear only as an arbitrary initial map.
- Store failures: the store protocol has no error channel, so none is modelled.
- `Encodable` conformance of `ScheduleRecord` (CronnerStore.swift:53): serialisation only.
- `run()` bodies of tasks: caller-supplied side effects.
- The test's busy-wait loop and pointer counters, and Package.swift. The test's `TestTask` declares `runAfter() -> UInt` while the protocol asks for `Int`. The model uses `int`.
- Cronner.Resume: its own contract states the flag and timer effects only; the check cycle it performs is stated by `CycleProperties.ResumeSlot`.
- Cronner.Fire: its own contract states the flag and timer effects only; the check cycle it performs while running is stated by `CycleProperties.FireSlot`.
- Cronner.CheckRecord: its own contract states only the frame; what it does to the record's name and that it leaves every other name alone is stated by `CycleProperties.CheckRecordSlot`.
- Cronner.CheckRecords: its own contract states only the frame and the bound on dispatches; what it does to each listed name is stated by `CycleProperties.CheckRecordsSlot`.
- Cronner.Check: its own contract states only the frame, the bound on dispatches and re-arming. What it does to each name is stated by `CycleProperties.CheckSlot` and the lemmas built on it.
- Task names are compared as sequences of code points, both in the registry (duplicate check, Cronner.swift:73) and when the check loop looks a record's task up (Cronner.swift:104). Swift's `String` equality and dictionary keys treat canonically equivalent names (a precomposed `é` and `e` followed by a combining accent) as one name; the model treats them as two, so it would accept a registration the source refuses with `duplicateName`. Unicode normalisation is not modelled.
