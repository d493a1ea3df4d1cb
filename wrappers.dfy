/** The optional value used for "nothing was written" and for a failed parse. */
module Wrappers {
  datatype Option<+T> = None | Some(value: T)
}
