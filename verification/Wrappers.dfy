/** A value that may be missing: C's null result. */
module Wrappers {
  datatype Option<+T> = None | Some(value: T)
}
