/** The optional value used wherever the program returns or stores `null`. */
module Wrappers {

  datatype Option<+T> = None | Some(value: T)
}
