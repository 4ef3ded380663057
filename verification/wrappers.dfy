/** The optional value used wherever the Go code returns nil or a second
    "ok" result. */
module Wrappers {

  datatype Option<+T> = None | Some(value: T)
}
