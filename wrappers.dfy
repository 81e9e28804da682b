/** The optional-value datatype used for "this line is dropped" results. */
module Wrappers {

  datatype Option<+T> = None | Some(value: T)
}
