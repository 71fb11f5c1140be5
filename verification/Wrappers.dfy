/** A value that may be absent: a Go nil, a missing map entry, a nil error. */
module Wrappers {
  datatype Option<+T> = None | Some(value: T)
}
