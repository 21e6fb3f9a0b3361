/** Optional values and error results shared by every module of the model. */
module Common {

  /** Python's `Optional[T]`: `None` or a present value. */
  datatype Option<+T> = None | Some(value: T)

  /** The outcome of a validator that either returns a value or raises an error
      (for the configuration loader, its `ConfigError` with the message). */
  datatype Result<+T> = Ok(value: T) | Err(message: string)
}
