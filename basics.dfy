/** Small shared datatypes. */
module Basics {

  /** A value that may be absent, as `undefined` is in JavaScript. */
  datatype Option<+T> = None | Some(value: T)
}
