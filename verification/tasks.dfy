/**
 The configuration a caller registers with the scheduler. The task's `run()`
 body is caller-supplied side effect and is not part of the model; only the
 scheduling policy is.
 */
module Tasks {
  import opened Wrappers

  /** Instants and offsets are whole seconds. */
  type Seconds = int

  datatype CronTask = CronTask(
    /** The registry and the store are both keyed by this name. */
    taskName: string,
    /** The task runs at most once and is then deregistered. */
    runOnlyOnce: bool,
    /** The task is due at the first check after registration, whatever its next run. */
    runImmediately: bool,
    /** Offset added to the scheduling instant to form the next run. */
    runAfter: Seconds,
    /** Absolute instant of the first run; None starts scheduling from the current instant. */
    firstRunAt: Option<Seconds>)
}
