/** Failure-carrying results used across the project. */
module Wrappers {
  datatype Option<+T> = None | Some(value: T)
}
