/** The stock option type: a C pointer that may be NULL, a lookup that may fail. */
module Wrappers {

  datatype Option<+T> = None | Some(value: T)
}
