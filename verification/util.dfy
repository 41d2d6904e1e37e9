/** Small shared vocabulary: an optional value, used wherever the driver
    tests a Python value against `None`. */
module Util {

  /** `None` in Python, or some present value. */
  datatype Option<+T> = None | Some(value: T)
}
