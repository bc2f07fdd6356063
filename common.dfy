/** Optional values and results with an error, as the handlers use them:
    a handler either answers with a value or reports one error and stops. */
module Common {

  datatype Option<T> = None | Some(value: T)

  datatype Result<T, E> = Ok(value: T) | Err(error: E)

  function MaxReal(x: real, y: real): real
  {
    if x >= y then x else y
  }

  function MaxInt(x: int, y: int): int
  {
    if x >= y then x else y
  }
}
