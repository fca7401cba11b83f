/** Results of nullable and failing calls. */
module Options {
  datatype Option<+T> = None | Some(value: T)

  /** A value or the source's error message. */
  datatype Result<+T> = Ok(value: T) | Err(error: string)
}
