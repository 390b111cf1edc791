/** A value that may be missing: pandas' NaN / NaT in a column. */
module Wrappers {
  datatype Option<+T> = None | Some(value: T)
}
