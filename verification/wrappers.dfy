/** The optional value used for C's NULL pointers. */
module Wrappers {

  datatype Option<+T> = None | Some(value: T)
}
