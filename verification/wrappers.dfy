/** The optional-value datatype used for Python calls that either return a value or raise. */
module Wrappers {

  datatype Option<+T> = None | Some(value: T)
}
