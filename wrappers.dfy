/** The optional value used for the source's `null` and `undefined`. */
module Wrappers {

  datatype Option<+T> = None | Some(value: T)
}
