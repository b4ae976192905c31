/** The optional value used for "no payload" and "never set". */
module Wrappers {

  datatype Option<+T> = None | Some(value: T)
}
