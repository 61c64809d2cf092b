/** The optional value used wherever the Go code can come back empty-handed:
    a pattern that finds no match, an escape sequence that does not decode. */
module Wrappers {

  datatype Option<+T> = None | Some(value: T)

}
