/** Option and Result, the two failure-compatible wrappers the model uses
    in place of Python's None and raised exceptions. */
module Wrappers {

  datatype Option<+T> = None | Some(value: T) {
    /** The wrapped value, or `default` when there is none. */
    function GetOr(default: T): T {
      match this
      case Some(v) => v
      case None => default
    }
  }

  /** A computation that either yields a value or fails with an error, standing
      for a Python function that returns or raises. */
  datatype Result<+T, +E> = Ok(value: T) | Err(error: E)
}
