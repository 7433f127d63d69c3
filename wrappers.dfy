/** The optional value used throughout the model (Swift's `Optional`). */
module Wrappers {

  datatype Option<+T> = None | Some(value: T)
}
