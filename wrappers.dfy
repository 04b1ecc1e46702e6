/** Failure-carrying result types shared by the other modules. */
module Wrappers {

  datatype Option<+T> = None | Some(value: T)

  /** The outcome of an operation that can raise (a Lua error or a Go panic). */
  datatype Result<+T> = Ok(value: T) | Err(msg: string)
}
