/** Small result types shared by every module of the model. */
module Common {

  /** A value that may be missing (JavaScript's `undefined`). */
  datatype Option<+T> = None | Some(value: T)

  /** The verdict of a form handler: the payload it would send, or the error it reports. */
  datatype Result<+T, +E> = Ok(value: T) | Err(error: E)
}
