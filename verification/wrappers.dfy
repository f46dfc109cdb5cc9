/** Optional values and results with an error, for the operations that may fail. */
module Wrappers {

  /** A value that may be absent, as Python's `None` or a failed conversion. */
  datatype Option<+T> = None | Some(value: T) {

    /** The wrapped value, or `default` when there is none (Python's `d.get(k, default)`). */
    function GetOr(default: T): T {
      match this
      case Some(v) => v
      case None => default
    }
  }

  /** Either a value or the error that stopped its computation (an uncaught exception). */
  datatype Result<+R, +E> = Success(value: R) | Failure(error: E)
}
