/** Option and Result datatypes shared by the modules of this project. */
module Results {

  /** A value that may be absent: Python's `None` versus a present value. */
  datatype Option<+T> = None | Some(value: T)

  /** The outcome of an operation that may raise one of the source's exceptions. */
  datatype Result<+T, +E> = Ok(value: T) | Err(error: E)
}
