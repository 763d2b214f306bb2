/** Option and Result, used in place of the source's try/except chains
    and raised exceptions. */
module Wrappers {

  /** A value that may be absent: a parse that did not succeed is `None`. */
  datatype Option<+T> = None | Some(value: T)

  /** The outcome of an operation that can raise: `Failure` carries the error. */
  datatype Result<+T, +E> = Success(value: T) | Failure(error: E)
}
