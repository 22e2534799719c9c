/** Option and Result values used for the JavaScript `undefined` results and the failing lookups. */
module Wrappers {

  /** A value that may be absent (JavaScript `undefined`). */
  datatype Option<+T> = None | Some(value: T)

  /** The outcome of an operation that either yields a value or stops the run with an error. */
  datatype Result<+T, +E> = Ok(value: T) | Err(error: E)
}
