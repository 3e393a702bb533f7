module Wrappers {
  datatype Option<+T> = None | Some(value: T)

  datatype Result<+T, +E> = Ok(value: T) | Err(error: E)

  function OkOr<T, E>(o: Option<T>, error: E): Result<T, E> {
    if o.Some? then Ok(o.value) else Err(error)
  }
}
