/** Optional values and results with an error alternative, used for the
    places where the game returns nothing or raises an exception. */
module Results {
  datatype Option<+T> = None | Some(value: T)

  datatype Result<+T, +E> = Ok(value: T) | Err(error: E)
}
