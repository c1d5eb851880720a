/** Failure-compatible result types shared by every module of the model. */
module Wrappers {

  /** A value that may be missing: Python's `None` versus a present value. */
  datatype Option<+T> = None | Some(value: T)

  /** The outcome of a bot command: a value, or the error the bot would post. */
  datatype Result<+T, +E> = Ok(value: T) | Err(error: E)
}
