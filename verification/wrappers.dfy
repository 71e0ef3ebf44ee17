/** Failure-carrying result types shared by the codec modules. */
module Wrappers {

  /** A value that may be absent: the model of a nullable pointer. */
  datatype Option<+T> = None | Some(value: T)

  /** The outcome of an operation that can report an error instead of a value. */
  datatype Result<+R, +E> = Success(value: R) | Failure(error: E)
}
