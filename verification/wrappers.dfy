/** Option and Result, the two wrappers the model uses for the source's
    "nothing" returns (None, an early return) and its raised exceptions. */
module Wrappers {

  datatype Option<+T> = None | Some(value: T)

  /** A computation that either produced a value or raised an error. */
  datatype Result<+T> = Ok(value: T) | Err(msg: string)
}
