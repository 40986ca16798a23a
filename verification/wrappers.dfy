/** The optional value used wherever the script holds a reference that may be `null`. */
module Wrappers {

  datatype Option<+T> = None | Some(value: T)

}
