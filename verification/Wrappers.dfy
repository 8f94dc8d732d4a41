/** A value that may be missing: a null pointer, or a field that is not there. */
module Wrappers {
  datatype Option<+T> = None | Some(value: T)
}
