/** The optional value used for "nothing stored", "request failed" and "not parsed". */
module Wrappers {

  datatype Option<+T> = None | Some(value: T)
}
