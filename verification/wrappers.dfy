/** Optional values and fallible results, used where the Python code returns
    `None` or raises an exception. */
module Wrappers {

  /** A value that may be absent (Python's `None`). */
  datatype Option<+T> = None | Some(value: T)

  /** The outcome of an operation that may fail with an error message. */
  datatype Result<+R, +E> = Success(value: R) | Failure(error: E)
}
