/** The optional-value datatype used for lookups that may miss. */
module Wrappers {

  datatype Option<+T> = None | Some(value: T)
}
