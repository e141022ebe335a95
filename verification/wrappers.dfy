/** Option and Result, standing in for Python's `None` and for a raised exception. */
module Wrappers {

  /** An optional value: `None` is Python's `None`. */
  datatype Option<+T> = None | Some(value: T)

  /** Either a computed value or the error that the source raises instead. */
  datatype Result<+R, +E> = Success(value: R) | Failure(error: E)
}
