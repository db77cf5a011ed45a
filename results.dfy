/** Option and Result values for the places where the server either has
    nothing to return or has caught an exception (its message is kept). */
module Results {

  datatype Option<+T> = None | Some(value: T)

  /** `Err` carries the text of a caught exception, `str(e)` in the server. */
  datatype Result<+T> = Ok(value: T) | Err(message: string)
}
