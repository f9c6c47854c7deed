/** A value that may be missing, shared by the other modules. */
module Wrappers {

  datatype Option<+T> = None | Some(value: T)
}
