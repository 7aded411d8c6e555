/** The optional result of a computation that may run out of fuel. */
module Wrappers {
  datatype Option<+T> = None | Some(value: T)
}
