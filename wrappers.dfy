/** Optional values and results with a failure reason. */
module Wrappers {

  datatype Option<+T> = None | Some(value: T) {

    /** The value held, or `default` when there is none (Python's `dict.get(key, default)`). */
    function GetOr(default: T): T {
      match this
      case Some(v) => v
      case None => default
    }
  }

  datatype Result<+R, +E> = Success(value: R) | Failure(error: E) {

    /** The success value, or `default` on failure. */
    function GetOr(default: R): R {
      match this
      case Success(v) => v
      case Failure(_) => default
    }
  }
}
