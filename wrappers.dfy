/** Option and Result values for calls that the server makes into the
    operating system and that can fail. */
module Wrappers {

  datatype Option<+T> = None | Some(value: T)

  /** An operating-system call that either succeeds with a value or fails
      with an error message. */
  datatype Result<+T> = Ok(value: T) | Err(message: string)
}
