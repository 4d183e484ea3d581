/** The outcome of a schema: a parsed value, or the error the form reports. */
module Results {
  datatype Result<T, E> = Ok(value: T) | Err(error: E)
}
