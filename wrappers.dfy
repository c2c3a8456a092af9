/** The optional result used wherever the Kotlin code would throw or signal failure. */
module Wrappers {
  datatype Option<+T> = None | Some(value: T)
}
