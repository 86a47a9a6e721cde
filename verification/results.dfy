/** Failure-carrying values shared by every module of the model. */
module Results {

  /** Go's `(value, error)` return pair, with exactly one side present. */
  datatype Result<+T, +E> = Ok(value: T) | Err(error: E)

  /** A value that may be absent (a nil pointer or a nil error in Go). */
  datatype Option<+T> = None | Some(value: T)
}
