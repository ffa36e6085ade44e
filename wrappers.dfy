/** The optional value used wherever the program yields `null`. */
module Wrappers {
  datatype Option<+T> = None | Some(value: T)
}
