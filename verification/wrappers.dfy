/** The optional value used for `Option<T>` fields of the session. */
module Wrappers {

  datatype Option<+T> = None | Some(value: T)
}
