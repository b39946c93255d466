/** Option and Result, the two wrappers the shell's Rust code relies on
    (`Option<T>` for the colour fields and `Result<(), String>` for commands). */
module Wrappers {

  datatype Option<+T> = None | Some(value: T)

  /** `Ok(())` or `Err(message)`: the shell's `CommandResult`. */
  datatype Result<+R, +E> = Ok(value: R) | Err(error: E)
}
