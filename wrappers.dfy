/** Plain result datatypes: `Option` for a value that may be missing, `Result`
    for the schedulers' thrown errors, `Outcome` for the settings page's early
    returns. */
module Wrappers {

  datatype Option<+T> = None | Some(value: T)

  /** The value an operation returns, or the error it throws. */
  datatype Result<+T, +E> = Success(value: T) | Failure(error: E)

  /** A check that either lets the caller go on or stops it with an error. */
  datatype Outcome<+E> = Pass | Fail(error: E)
}
