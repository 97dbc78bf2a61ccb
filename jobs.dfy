/**
 * The job objects the store persists. Job's own module is not part of this
 * model: its attributes other than func, func_ref and id are one opaque
 * value, and `__getstate__` / `__setstate__` are supplied by the caller as
 * uninterpreted functions over a snapshot of those attributes.
 */
module Jobs {
  import opened Wrappers

  /** The callable a job runs (`job.func`); never inspected. */
  type Callable(==, !new)

  /** Every other attribute of a job (trigger, args, kwargs, name, next_run_time, runs, ...). */
  type Attrs(==, !new)

  /** The attributes of a job object at one moment. */
  datatype Snapshot = Snapshot(func: Callable, funcRef: Option<string>, id: Option<int>, attrs: Attrs)

  class Job {
    var func: Callable
    var funcRef: Option<string>
    var id: Option<int>
    var attrs: Attrs

    function Fields(): Snapshot
      reads this
    {
      Snapshot(func, funcRef, id, attrs)
    }

    /** `Job.__new__(Job)` followed by `__setstate__`, which installed the attributes `s`. */
    constructor Restore(s: Snapshot)
      ensures Fields() == s
    {
      func, funcRef, id, attrs := s.func, s.funcRef, s.id, s.attrs;
    }
  }
}
