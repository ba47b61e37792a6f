/** The success-or-error value returned where the script would raise. */
module Results {
  datatype Result<+T, +E> = Ok(value: T) | Err(error: E)
}
