/** The optional value used by the other modules for "no result". */
module Wrappers {
  datatype Option<+T> = None | Some(value: T)
}
