/** The optional value used wherever the original code returns or stores `None`. */
module Wrappers {

  datatype Option<+T> = None | Some(value: T)
}
