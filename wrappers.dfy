/** Small failure-compatible wrappers shared by the models. */
module Wrappers {
  /** A value that may be absent: C's NULL pointer or Python's missing key. */
  datatype Option<+T> = None | Some(value: T)
}
