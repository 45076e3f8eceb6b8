/** The shapes of Swift's optionals and thrown errors. */
module Wrappers {

  /** A Swift optional: `nil` or a value. */
  datatype Option<+T> = None | Some(value: T)

  /** A value-returning call that either returns or throws. */
  datatype Result<+T, +E> = Success(value: T) | Failure(error: E)

  /** A `Void` call that either returns or throws. */
  datatype Outcome<+E> = Pass | Fail(error: E)
}
