/** The optional value used for a query that may find no row and for a missing session key. */
module Wrappers {

  datatype Option<+T> = None | Some(value: T)
}
