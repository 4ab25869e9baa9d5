/** The optional value used for a missing delta, an unset score and an error return. */
module Wrappers {
  datatype Option<+T> = None | Some(value: T)
}
