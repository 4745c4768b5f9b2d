/** Optional values (PHP's nullable types) and results with an error path (PHP exceptions). */
module Wrappers {

  /** A PHP `?T`: `None` stands for `null`. */
  datatype Option<+T> = None | Some(value: T) {

    /** The `??` operator: the value, or `default` when it is null. */
    function GetOr(default: T): T {
      match this
      case Some(v) => v
      case None => default
    }
  }

  /** The outcome of an operation that either returns a value or throws. */
  datatype Result<+T, +E> = Success(value: T) | Failure(error: E)
}
