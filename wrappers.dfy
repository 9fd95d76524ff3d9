/** Failure-carrying values shared by the other modules. */
module Wrappers {

  /** A value that may be absent (Ruby's `nil`). */
  datatype Option<+T> = None | Some(value: T)

  /** A computed value, or the message the program aborts with. */
  datatype Result<+R, +E> = Success(value: R) | Failure(error: E)
}
