/** Failure-carrying datatypes shared by the whole model. */
module Wrappers {

  /** A value that may be absent: a missing map entry, a missing cell, an
      unreadable spreadsheet row or a JSON key the result does not carry. */
  datatype Option<+T> = None | Some(value: T)

  /** The outcome of an operation that can fail with a Go `error`; the
      error is kept as the text `err.Error()` would produce. */
  datatype Result<+T> = Ok(value: T) | Err(error: string)
}
