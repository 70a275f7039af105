/** The optional value used for the games' error messages. */
module Wrappers {
  datatype Option<T> = None | Some(value: T)
}
