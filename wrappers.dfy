/** Failure-carrying result types shared by the model. */
module Wrappers {
  datatype Option<+T> = None | Some(value: T)

  /** `Err` carries whatever the operation hands back to its caller on failure. */
  datatype Result<+T, +E> = Ok(value: T) | Err(error: E)
}
