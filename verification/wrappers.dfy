/** The optional value used where the program either has something or not. */
module Wrappers {

  datatype Option<+T> = None | Some(value: T)
}
