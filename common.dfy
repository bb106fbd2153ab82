/** Basic types shared by the whole model: bytes and the two failure wrappers
    that stand for Go's `(value, error)` returns. */
module Common {

  /** A Go `byte`. */
  newtype byte = x: int | 0 <= x < 256

  datatype Option<+T> = None | Some(value: T)

  /** `Ok(v)` stands for `(v, nil)`, `Err(e)` for `(zero value, e)`. */
  datatype Result<+T, +E> = Ok(value: T) | Err(error: E)
}
