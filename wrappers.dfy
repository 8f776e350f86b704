/** A value that may be absent, used where the C++ returns NULL or a "not found" value. */
module Wrappers {

  datatype Option<+T> = None | Some(value: T)
}
