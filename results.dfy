/** Optional values and outcomes that either carry a value or an error message. */
module Results {

  datatype Option<+T> = None | Some(value: T)

  /** What an external call answers: a value, or a failure with Go's error text. */
  datatype Result<+T> = Ok(value: T) | Err(message: string)
}
