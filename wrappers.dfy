/** The Option datatype, used where the Java model has a reference that may be null. */
module Wrappers {

  datatype Option<+T> = None | Some(value: T)
}
