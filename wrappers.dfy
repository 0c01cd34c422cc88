/** The optional value returned by the platform's date formatter. */
module Wrappers {

  datatype Option<+T> = None | Some(value: T)
}
