/** The outcome of a source function that either returns a value or throws. */
module Results {
  datatype Result<+T> = Ok(value: T) | Err(error: string)

  datatype Option<+T> = None | Some(value: T)
}
