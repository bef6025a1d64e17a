/** The optional value used for JavaScript's NaN and for an absent storage key. */
module Wrappers {
  datatype Option<+T> = None | Some(value: T)
}
