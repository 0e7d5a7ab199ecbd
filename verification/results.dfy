/** Success/failure values standing in for the exceptions the program raises. */
module Results {

  /** Either a computed value or the error that stopped the computation. */
  datatype Result<+T, +E> = Ok(value: T) | Err(error: E)
}
