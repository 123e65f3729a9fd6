/** A missing value: pandas' NaN in a numeric cell, Python's None for an absent result. */
module Wrappers {

  datatype Option<+T> = None | Some(value: T)
}
