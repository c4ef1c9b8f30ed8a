/** A JavaScript value that may be `undefined` or `null`, or present. */
module Wrappers {

  datatype Option<+T> = None | Some(value: T)
}
