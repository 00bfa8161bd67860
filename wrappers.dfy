/** The optional-value datatype used wherever the source returns `Option`. */
module Wrappers {
  datatype Option<+T> = None | Some(value: T)
}
