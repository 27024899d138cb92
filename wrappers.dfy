/** Option and Result values for the model's foreign inputs and Java's exceptions. */
module Wrappers {

  /** A value that may be absent: Java's null, or a parse that threw. */
  datatype Option<+T> = None | Some(value: T)

  /** The outcome of an operation that returns a value or throws. */
  datatype Result<+T, +E> = Success(value: T) | Failure(error: E)
}
