/** A value or the error that stopped its computation (a thrown exception in the source),
    and a possibly absent value (`null` in the source). */
module Results {
  datatype Result<+T, +E> = Ok(value: T) | Err(error: E)

  datatype Option<+T> = None | Some(value: T)
}
