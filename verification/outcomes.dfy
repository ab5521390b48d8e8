/** Failure-carrying wrappers shared by the hash table model. */
module Outcomes {

  /** An optional value: `None` when there is nothing to report. */
  datatype Option<+T> = None | Some(value: T)

  /** The result of an operation that can fail with an error of type `E`. */
  datatype Result<+T, +E> = Success(value: T) | Failure(error: E)
}
