/** The optional value used for NULL pointers and absent results. */
module Wrappers {
  datatype Option<+T> = None | Some(value: T)
}
