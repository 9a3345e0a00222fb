/** Stand-ins for the source's Option and Result values. */
module Options {
  datatype Option<+T> = None | Some(value: T)

  datatype Result<+R, +E> = Ok(value: R) | Err(error: E)
}
