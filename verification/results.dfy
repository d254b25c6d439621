/** Failure-carrying datatypes shared by the whole model. */
module Results {

  /** A value that may be absent: a missing row, a missing index. */
  datatype Option<+T> = None | Some(value: T)

  /** A value or an error; `Err` stands for an exception the Python code raises. */
  datatype Result<+T, +E> = Ok(value: T) | Err(error: E)
}
