/** Success/failure values for the operations whose Python original raises. */
module Results {

  /** `Ok` carries the value the Python code returns; `Err` stands for the
      exception it raises, with a description of where. */
  datatype Result<+T, +E> = Ok(value: T) | Err(error: E)
}
