/** The one wrapper type that several modules share: a value that may be missing. */
module Wrappers {

  datatype Option<+T> = None | Some(value: T)
}
