/** The optional value used wherever the program yields Python's None. */
module Wrappers {
  datatype Option<+T> = None | Some(value: T)
}
