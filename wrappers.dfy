/** The optional value used wherever the Swift code has an optional (`T?`) or collapses a
    throwing lookup with `try?`. */
module Wrappers {
  datatype Option<+T> = None | Some(value: T)
}
