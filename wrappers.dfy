/** The optional value used for a resolved path that may be absent. */
module Wrappers {

  datatype Option<+T> = None | Some(value: T)
}
