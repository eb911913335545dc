/** Optional values and results shared by the modules of the model. */
module Common {

  /** A value that may be absent: JavaScript's `null`/`undefined`, or the NaN of a failed parse. */
  datatype Option<T> = None | Some(value: T)

  /** The outcome of an operation that can be refused with a reason. */
  datatype Result<T, E> = Ok(value: T) | Err(error: E)

  function Min(a: int, b: int): int
  {
    if a <= b then a else b
  }

  function Max(a: int, b: int): int
  {
    if a <= b then b else a
  }
}
