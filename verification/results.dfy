/** Option and Result datatypes shared by every module of the sweep model. */
module Results {

  /** A value that may be absent (Python's `None` / a failed `re.search`). */
  datatype Option<+T> = None | Some(value: T)

  /** The outcome of an operation that either returns a value or raises. */
  datatype Result<+T, +E> = Ok(value: T) | Err(error: E)
}
