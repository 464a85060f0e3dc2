/** Failure-carrying values shared by the modules of the janitor model. */
module Outcomes {

  /** A value that may be absent, as a Go `error` that may be nil. */
  datatype Option<+T> = None | Some(value: T)

  /** A Go `(value, error)` pair: either a value with a nil error, or an error. */
  datatype Result<+T> = Ok(value: T) | Err(message: string)
}
