/** The optional value used wherever the source returns `undefined` or stores `null`. */
module Wrappers {
  datatype Option<+T> = None | Some(value: T)
}
