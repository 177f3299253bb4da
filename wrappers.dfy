/** Failure-carrying values: the model's stand-in for Python's None and exceptions. */
module Wrappers {

  datatype Option<+T> = None | Some(value: T)

  /** A value, or the error that a Python exception would have carried. */
  datatype Result<+R, +E> = Success(value: R) | Failure(error: E)

  /** The end of a step that produces no value: it passed, or it raised. */
  datatype Outcome<+E> = Pass | Fail(error: E)
}
