/** An optional value: a request field that may be absent, a store error
    field that may be undefined, a middleware that may or may not answer. */
module Wrappers {

  datatype Option<+T> = None | Some(value: T)
}
