/** Option, for the values that Python writes as `None` and that a parser may fail to produce. */
module Wrappers {
  datatype Option<+T> = None | Some(value: T)
}
