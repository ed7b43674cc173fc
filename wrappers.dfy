/** The optional value used for C pointers that may be null and for searches that may fail. */
module Wrappers {
  datatype Option<+T> = None | Some(value: T)
}
