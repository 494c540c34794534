/** A value that may be absent: a missing table cell, a name that matches no read marker. */
module Wrappers {
  datatype Option<+T> = None | Some(value: T)
}
