/** Option and Result, the failure-compatible wrappers used throughout the model. */
module Wrappers {

  datatype Option<+T> = None | Some(value: T) {
    /** The wrapped value, or `default` when there is none (JavaScript's `x ?? default`). */
    function GetOr(default: T): T {
      match this
      case Some(v) => v
      case None => default
    }
  }

  datatype Result<+R, +E> = Success(value: R) | Failure(error: E)
}
