/** The optional value used for NULL pointers and failed lookups. */
module Wrappers {

  datatype Option<+T> = None | Some(value: T)
}
