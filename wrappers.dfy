/** Option and a Result whose failure is a JavaScript error message. */
module Wrappers {

  datatype Option<+T> = None | Some(value: T)

  /** The outcome of a step that may throw: its value, or the `message` of the
      error it throws. */
  datatype Result<+T> = Ok(value: T) | Err(message: string)
}
