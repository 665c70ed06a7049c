/** The error returns of the operator: a value or an error. */
module Results {
  datatype Result<T, E> = Ok(value: T) | Err(error: E)
}
