/** The optional-value datatype used to model `npos` and the absence of a diagnostic. */
module Wrappers {

  datatype Option<+T> = None | Some(value: T)
}
