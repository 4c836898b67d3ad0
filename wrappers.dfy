/** The optional value shared by the surfaces and the command stream. */
module Wrappers {
  datatype Option<+T> = None | Some(value: T)
}
