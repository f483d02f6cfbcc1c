/** Small value types shared by the whole model. */
module Base {

  /** Python's `Optional[T]`: `None` or a present value. */
  datatype Option<T> = None | Some(value: T) {
    /** The value, or `default` when absent. */
    function UnwrapOr(default: T): T {
      if Some? then value else default
    }
  }

  /** The outcome of a step that may raise: a value, or the error it raised. */
  datatype Result<T, E> = Ok(value: T) | Err(error: E)

  /** One byte of file content. */
  newtype byte = x: int | 0 <= x < 256
}
