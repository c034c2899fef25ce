/** Option type for values that may be absent (a CSV cell that Python reads as None). */
module Wrappers {
  datatype Option<+T> = None | Some(value: T)
}
