/** The optional value used wherever a script returns `None` or reads a key
    that may be absent. */
module Wrappers {
  datatype Option<+T> = None | Some(value: T)
}
