/** The optional value used for Java's `null` results and abandoned tasks. */
module Wrappers {
  datatype Option<+T> = None | Some(value: T)
}
