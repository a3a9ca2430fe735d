/** Optional and fallible values shared by the dashboard model. */
module Wrappers {

  /** A value that may be absent: JavaScript's null, undefined and NaN all map to None. */
  datatype Option<+T> = None | Some(value: T) {

    /** The value, or `default` when absent. */
    function GetOr(default: T): T {
      match this
      case Some(v) => v
      case None => default
    }
  }

  /** The outcome of an operation that can fail with an error of type E. */
  datatype Result<+R, +E> = Success(value: R) | Failure(error: E)
}
