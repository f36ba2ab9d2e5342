/** Option and Result, shared by the other modules. */
module Wrappers {

  /** An optional value: a missing attribute, a file that does not exist yet. */
  datatype Option<+T> = None | Some(value: T)

  /** The outcome of an operation that can fail with an error of type E. */
  datatype Result<+R, +E> = Success(value: R) | Failure(error: E)
}
