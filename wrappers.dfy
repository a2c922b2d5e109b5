/** Option and Result, used for nullable rows and for thrown errors. */
module Wrappers {

  /** A row that may be missing: the `null` a lookup returns. */
  datatype Option<+T> = None | Some(value: T)

  /** The outcome of an operation that either returns a value or throws an error. */
  datatype Result<+R, +E> = Success(value: R) | Failure(error: E)
}
