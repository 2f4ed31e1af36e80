/** A possibly absent value: the model of a Java reference that may be null. */
module Wrappers {

  datatype Option<+T> = None | Some(value: T)
}
