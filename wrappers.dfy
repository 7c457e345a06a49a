/** Option and Result values for operations that may yield nothing or fail. */
module Wrappers {

  /** A value that may be absent (JavaScript's `null` from a lookup). */
  datatype Option<+T> = None | Some(value: T)

  /** The outcome of an operation that either returns a value or throws an error. */
  datatype Result<+R, +E> = Success(value: R) | Failure(error: E)
}
