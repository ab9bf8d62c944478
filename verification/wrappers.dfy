/** Failure-carrying result types used in place of null pointers and exceptions. */
module Wrappers {

  /** Stands in for a node pointer that may be null. */
  datatype Option<+T> = None | Some(value: T)

  /** Stands in for a return value or a thrown exception. */
  datatype Result<+R, +E> = Success(value: R) | Failure(error: E)
}
