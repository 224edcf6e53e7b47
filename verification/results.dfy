/** Failure-carrying values shared by the modules of this model: the
    optional value and the success-or-error value that stand in for Go's
    `(value, error)` returns. */
module Results {

  /** A value that may be absent. */
  datatype Option<+T> = None | Some(value: T)

  /** Either a value or the error that prevented computing it. */
  datatype Result<+T, +E> = Ok(value: T) | Err(error: E)
}
