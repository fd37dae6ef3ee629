/** Failure-carrying result types shared by the model. */
module Wrappers {

  /** A value that may be absent; stands for Python's `None`. */
  datatype Option<+T> = None | Some(value: T)

  /** The outcome of an operation that raises in the source on its error paths. */
  datatype Result<+R, +E> = Success(value: R) | Failure(error: E)
}
