/** The optional value and the value-or-exception result used throughout the model. */
module Wrappers {

  /** A value that may be absent: Ruby's `nil` versus an object. */
  datatype Option<+T> = None | Some(value: T)

  /** The outcome of a Ruby call that may raise: its value, or the exception raised. */
  datatype Result<+T, +E> = Success(value: T) | Failure(error: E)
}
