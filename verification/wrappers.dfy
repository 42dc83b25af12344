/** The optional-value datatype used where the source returns `undefined` or `-1`. */
module Wrappers {

  datatype Option<+T> = None | Some(value: T)

}
