/** The optional value that stands for Go's nil results and SQL's missing rows. */
module Wrappers {
  datatype Option<+T> = None | Some(value: T)
}
