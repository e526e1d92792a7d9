/** The outcome of an operation that can raise: the value, or the exception it raised. */
module Results {

  datatype Result<+T, +E> = Ok(value: T) | Err(error: E)

}
