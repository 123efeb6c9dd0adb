/** Option, for results that may be absent (a missing key, an unreadable file). */
module Wrappers {

  datatype Option<+T> = None | Some(value: T)
}
