/** Results of operations that can come back empty or fail. */
module Wrappers {

  datatype Option<+T> = None | Some(value: T)

  datatype Result<+T> = Ok(value: T) | Err(error: string)

  /** How a call without a result ends: normally, with an error, or with a Go panic. */
  datatype Done = Completed | Failed(error: string) | Panicked
}
