/** The optional value used wherever a filesystem lookup can fail. */
module Wrappers {

  datatype Option<+T> = None | Some(value: T)
}
