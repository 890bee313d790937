/** Optional values and results with an error case, used for the payload's missing keys and for
    saves that roll back. */
module Wrappers {

  /** A value that may be absent: a JSON key that is missing (or null). */
  datatype Option<+T> = None | Some(value: T) {

    /** The value, or `default` when absent: Python's `dict.get(key, default)`. */
    function GetOr(default: T): T {
      match this
      case Some(v) => v
      case None => default
    }
  }

  /** The outcome of an operation that either produces a value or fails with an error. */
  datatype Result<+R, +E> = Success(value: R) | Failure(error: E)
}
