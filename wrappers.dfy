/** Failure-compatible wrapper types shared by the other modules. */
module Wrappers {

  /** An optional value: `None` when a search finds nothing. */
  datatype Option<+T> = None | Some(value: T)

  /** Either a computed value or the error that aborted the computation. */
  datatype Result<+R, +E> = Success(value: R) | Failure(error: E)
}
