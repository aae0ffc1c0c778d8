/** Option, standing for a Java reference that may still be null. */
module Wrappers {

  datatype Option<+T> = None | Some(value: T)
}
