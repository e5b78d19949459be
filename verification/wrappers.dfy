/** The optional value used wherever the source may fail or find nothing. */
module Wrappers {

  datatype Option<+T> = None | Some(value: T)
}
