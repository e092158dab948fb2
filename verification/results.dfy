/** The outcome of an operation that can fail with an error the caller sees. */
module Results {

  datatype Result<+T, +E> = Ok(value: T) | Err(error: E)
}
