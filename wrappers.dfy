/** The optional value used for "no move" and for a skipped evaluation window. */
module Wrappers {
  datatype Option<T> = None | Some(value: T)
}
