/** The usual optional value, for a lookup or a read that may find nothing. */
module Wrappers {

  datatype Option<+T> = None | Some(value: T)
}
