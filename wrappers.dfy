/** The optional value returned by the first-match searches of the walker. */
module Wrappers {
  datatype Option<+T> = None | Some(value: T)
}
