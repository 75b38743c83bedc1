/** `Option` and `Result` used by the memo model. */
module Wrappers {

  /** An optional value: the persisted slot is `None` when the key was never written. */
  datatype Option<+T> = None | Some(value: T)

  /** The outcome of an operation that may fail with an error of type `E`. */
  datatype Result<+R, +E> = Success(value: R) | Failure(error: E)
}
