/** The failure-carrying values the model uses in place of Go's
    `(value, error)` pairs and nil values. */
module Results {

  /** A value that may be absent: an omitted JSON field, a row not found. */
  datatype Option<+T> = None | Some(value: T)

  /** Either a value or the error that prevented it. */
  datatype Result<+T, +E> = Ok(value: T) | Err(error: E)
}
