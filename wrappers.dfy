/** The optional value used for "no such category" results. */
module Wrappers {

  datatype Option<+T> = None | Some(value: T)
}
