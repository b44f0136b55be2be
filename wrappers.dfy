/** Wrappers shared by the registry model. */
module Wrappers {

  /** A value that may be missing: the parser's `null`, a lookup that found nothing. */
  datatype Option<+T> = None | Some(value: T)

  /** The outcome of an operation that either succeeds with a value or raises an error. */
  datatype Result<+T, +E> = Success(value: T) | Failure(error: E)
}
