/** A value that may be absent: the calculators use `None` where a handler returns without showing a result. */
module Wrappers {

  datatype Option<+T> = None | Some(value: T)
}
