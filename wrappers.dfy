/** The optional value returned where the library returns NULL or a failure flag. */
module Wrappers {
  datatype Option<T> = None | Some(value: T)
}
