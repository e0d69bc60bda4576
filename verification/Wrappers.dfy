/** Option and Result, the two failure-carrying datatypes the model uses in
    place of Python's `None` and raised exceptions. */
module Wrappers {

  /** A value that may be absent: a missing JSON key or a `null`. */
  datatype Option<+T> = None | Some(value: T) {

    /** The value, or `default` when absent (Python's `dict.get(key, default)`). */
    function GetOr(default: T): T
    {
      match this
      case Some(v) => v
      case None => default
    }
  }

  /** Either a computed value or the message of the exception that aborted the run. */
  datatype Result<+R, +E> = Success(value: R) | Failure(error: E)
}
