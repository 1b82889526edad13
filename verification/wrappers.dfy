/** Failure-carrying wrappers used by the parser's signatures. */
module Wrappers {

  /** A value that may be missing: a line that does not match, a quote that never closes. */
  datatype Option<+T> = None | Some(value: T)

  /** The outcome of an operation that is declared fallible. */
  datatype Result<+R, +E> = Success(value: R) | Failure(error: E)
}
