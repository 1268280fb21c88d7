/** Success and failure values shared by every operation of the ledger. */
module Wrappers {

  /** A value that may be absent: a nullable column, an optional request. */
  datatype Option<+T> = None | Some(value: T)

  /** The outcome of an operation that either succeeds with a value or fails with an error. */
  datatype Result<+T, +E> = Ok(value: T) | Err(error: E)
}
