/** Failure-carrying values shared by the string and colour modules. */
module Wrappers {

  /** Swift's `Optional`: `nil` or a wrapped value. */
  datatype Option<+T> = None | Some(value: T)

  /** The outcome of an operation that can fail with an error of type `E`. */
  datatype Result<+R, +E> = Success(value: R) | Failure(error: E)
}
