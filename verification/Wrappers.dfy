/** The usual optional value: SQL's NULL, JavaScript's null or undefined. */
module Wrappers {
  datatype Option<+T> = None | Some(value: T)
}
