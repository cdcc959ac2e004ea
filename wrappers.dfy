/** A value that may be absent: Kotlin's nullable `ELMData?`. */
module Wrappers {
  datatype Option<+T> = None | Some(value: T)
}
