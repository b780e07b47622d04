/** Option values, used where the source raises an exception. */
module Wrappers {

  datatype Option<+T> = None | Some(value: T)
}
