/** The nullable values of the source (`string?`, `int?`, a navigation that may be null). */
module Wrappers {

  datatype Option<+T> = None | Some(value: T)
}
