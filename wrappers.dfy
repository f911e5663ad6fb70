/** The optional value used where the Go code returns nil for "absent". */
module Wrappers {

  datatype Option<+T> = None | Some(value: T)
}
