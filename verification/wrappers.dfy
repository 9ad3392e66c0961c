/** Failure-carrying datatypes shared by every component of the pipeline model. */
module Wrappers {

  /** A value that may be absent: a missing CSV cell, a JSON field that is not there,
      an engine call that raised. */
  datatype Option<+T> = None | Some(value: T) {

    /** The wrapped value, or `default` when there is none (Python's `dict.get(k, default)`). */
    function GetOr(default: T): T {
      match this
      case Some(v) => v
      case None => default
    }
  }

  /** The outcome of a run that may stop with a fatal error (`SystemExit`, an uncaught raise). */
  datatype Result<+T, +E> = Ok(value: T) | Err(error: E)
}
