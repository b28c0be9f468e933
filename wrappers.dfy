/** The optional value used for table lookups that may miss. */
module Wrappers {

  datatype Option<+T> = None | Some(value: T)
}
