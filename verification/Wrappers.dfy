/** A value that may be missing. */
module Options {
  datatype Option<+T> = None | Some(value: T)
}

/** A value or an error. */
module Results {
  datatype Result<+T, +E> = Ok(value: T) | Err(error: E)
}
