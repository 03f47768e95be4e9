/** Failure-carrying datatypes shared by the conversion model. */
module Wrappers {

  /** A value that may be missing; stands for Python's "attribute absent". */
  datatype Option<+T> = None | Some(value: T)

  /** The outcome of a step that can fail with an error value. */
  datatype Result<+R, +E> = Success(value: R) | Failure(error: E)
}
