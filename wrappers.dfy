/** The optional value used for empty hash-table slots and for the end of an input stream. */
module Wrappers {

  datatype Option<T> = None | Some(value: T)
}
