/** The optional value returned by a store query that may match nothing. */
module Wrappers {

  datatype Option<+T> = None | Some(value: T)
}
