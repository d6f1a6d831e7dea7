/** The optional value used for Go's `(value, error)` returns, where the error may be nil. */
module Wrappers {

  datatype Option<+T> = None | Some(value: T)
}
