/** Option and Result: Python's `None` / value and exception / value, as data. */
module Wrappers {

  /** A value that may be absent (Python's `X | None`). */
  datatype Option<+T> = None | Some(value: T)

  /** The outcome of an operation that may raise (Python's return value or exception). */
  datatype Result<+R, +E> = Success(value: R) | Failure(error: E)
}
