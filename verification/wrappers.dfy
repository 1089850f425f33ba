/** The absent-or-present value the script passes around as `None` or an object. */
module Wrappers {

  datatype Option<+T> = None | Some(value: T)
}
