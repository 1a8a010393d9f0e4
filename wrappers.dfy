/** Failure-compatible wrappers shared by the other modules. */
module Wrappers {

  /** A value that may be absent, as a JavaScript property or a search result. */
  datatype Option<+T> = None | Some(value: T)

  /** The outcome of a check that either yields a value or reports an error. */
  datatype Result<+R, +E> = Success(value: R) | Failure(error: E)
}
