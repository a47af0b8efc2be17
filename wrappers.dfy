/** A value that may be absent: what a spawn that did not happen returns. */
module Wrappers {

  datatype Option<+T> = None | Some(value: T)
}
