/** The error-or-value outcome that the Go functions return as `(value, error)`,
    and an optional value for a parse that may fail. */
module Results {

  datatype Result<+T, +E> = Ok(value: T) | Err(error: E)

  datatype Option<+T> = None | Some(value: T)
}
