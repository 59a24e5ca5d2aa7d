/** A value that may be missing: how this model writes a Java reference that may be null. */
module Wrappers {

  datatype Option<+T> = None | Some(value: T)
}
