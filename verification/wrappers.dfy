/** Optional values and success/failure results, used where the Python code
    returns `None` or raises. */
module Wrappers {

  /** `None` stands for Python's `None` (or a missing key); `Some(v)` for a value. */
  datatype Option<+T> = None | Some(value: T) {

    /** The value, or `default` when absent (Python's `d.get(key, default)`). */
    function GetOr(default: T): T {
      match this
      case Some(v) => v
      case None => default
    }
  }

  /** The outcome of an operation that either returns a value or raises. */
  datatype Result<+T, +E> = Success(value: T) | Failure(error: E)
}
