/** Optional values, results with an error and the minimum of two integers,
    shared by every module of the model. */
module Wrappers {

  /** A value that may be absent: Python's `None` or a missing entry. */
  datatype Option<+T> = None | Some(value: T) {

    /** The carried value, or `default` when there is none (Python's `x or default`). */
    function GetOr(default: T): T {
      match this
      case Some(v) => v
      case None => default
    }
  }

  /** The outcome of an operation that can raise: a value, or the exception that escaped. */
  datatype Result<+T, +E> = Success(value: T) | Failure(error: E)

  /** Python's `min(a, b)`. */
  function Min(a: int, b: int): int {
    if a <= b then a else b
  }
}
