/** Failure-compatible wrappers shared by the model: Java's `Optional` and a
    value-or-exception result. */
module Wrappers {

  /** `Optional<T>`, and also a nullable Java reference: `None` is null. */
  datatype Option<+T> = None | Some(value: T)

  /** A call that either returns a value or throws. */
  datatype Result<+T, +E> = Success(value: T) | Failure(error: E)
}
