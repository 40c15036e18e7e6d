/** The optional value used for board cells and for the falling piece. */
module Wrappers {
  datatype Option<+T> = None | Some(value: T)
}
