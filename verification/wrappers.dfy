/** The optional-value datatype used wherever the source returns `null`. */
module Wrappers {

  datatype Option<+T> = None | Some(value: T)

}
