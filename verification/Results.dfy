/** What operations hand back. */
module Results {

  /** A value or an error code. Code 0 is a cancelled scan, every other code a failure. */
  datatype Result<+T> = Ok(value: T) | Err(code: int)

  datatype Option<+T> = None | Some(value: T)
}
