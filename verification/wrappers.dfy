/** Optional values and results, used in place of `null` and of thrown exceptions. */
module Wrappers {

  /** A value that may be absent: the model of a nullable reference. */
  datatype Option<+T> = None | Some(value: T) {

    /** The value, or `default` when absent: the model of C#'s `??`. */
    function GetOr(default: T): T {
      match this
      case Some(v) => v
      case None => default
    }
  }

  /** Either a value or the error a call would have thrown. */
  datatype Result<+R, +E> = Success(value: R) | Failure(error: E)
}
