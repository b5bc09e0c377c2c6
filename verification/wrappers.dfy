/** A missing value: pandas' NaN / NA, or a key that is not there. */
module Wrappers {
  datatype Option<+T> = None | Some(value: T)
}
