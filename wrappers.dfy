/** The optional-value type shared by every module of the model. */
module Wrappers {

  /** A value that may be absent: Go's `(v, ok)` pairs, JavaScript's `undefined`. */
  datatype Option<+T> = None | Some(value: T)
}
