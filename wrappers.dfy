/** An optional value, standing for a JavaScript reference that may be `null`
    or a lookup that may come back `undefined`. */
module Wrappers {
  datatype Option<+T> = None | Some(value: T)
}
