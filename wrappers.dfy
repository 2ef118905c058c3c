/** The Optional<T> results of the Java code. */
module Wrappers {
  datatype Option<+T> = None | Some(value: T)
}
