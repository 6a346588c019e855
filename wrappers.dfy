/** The optional value used wherever the JavaScript source reads a field that
    may be `undefined` or `null`, or returns `null`. */
module Wrappers {

  datatype Option<+T> = None | Some(value: T)
}
