/** The optional value used wherever the script has `None`. */
module Wrappers {

  datatype Option<+T> = None | Some(value: T)
}
