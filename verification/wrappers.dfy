/** `Option`: a found value, or `None` when nothing was found. */
module Wrappers {

  datatype Option<+T> = None | Some(value: T)
}
