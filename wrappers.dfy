/** The optional value used for absent request parameters and missing records. */
module Wrappers {

  datatype Option<+T> = None | Some(value: T)
}
