/** The Some/None datatype used for raw pointers that may be null. */
module Wrappers {

  datatype Option<+T> = None | Some(value: T)

}
