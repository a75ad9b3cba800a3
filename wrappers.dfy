/** The optional result the script returns as `None` on failure. */
module Wrappers {

  datatype Option<+T> = None | Some(value: T)
}
