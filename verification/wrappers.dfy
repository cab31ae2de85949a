/** The optional-value datatype used for steps that may produce nothing. */
module Wrappers {

  datatype Option<+T> = None | Some(value: T)
}
