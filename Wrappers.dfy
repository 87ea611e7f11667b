/** A value that may be absent: Java's `null` results. */
module Wrappers {
  datatype Option<T> = None | Some(value: T)
}
