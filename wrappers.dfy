/** Optional values and results with an error channel. */
module Wrappers {

  datatype Option<+T> = None | Some(value: T) {
    /** The value, or `default` when it is absent (the `??` operator). */
    function GetOr(default: T): T {
      match this
      case Some(v) => v
      case None => default
    }
  }

  datatype Result<+R, +E> = Success(value: R) | Failure(error: E)
}
