/** Optional values: a missing option, or a missing or empty variable stack. */
module Options {

  datatype Option<+T> = None | Some(value: T)

  /** What setup returns: a value, or the message of the error it throws. */
  datatype Result<+T> = Ok(value: T) | Err(msg: string)
}
