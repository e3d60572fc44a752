/** Option and result datatypes for the scripts' `None` returns and raised errors. */
module Results {

  /** A value that may be absent: a file that does not exist, a pattern that does not match. */
  datatype Option<+T> = None | Some(value: T)

  /** The outcome of an operation that raises in the source: `Err` carries the exception's message. */
  datatype Result<+T> = Ok(value: T) | Err(message: string)
}
