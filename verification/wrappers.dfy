/** An optional value: a field that may be absent, a date that may not parse. */
module Wrappers {
  datatype Option<+T> = None | Some(value: T)
}
