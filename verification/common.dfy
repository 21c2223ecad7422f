/** Small shared vocabulary: optional values and bytes. */
module Common {

  /** An optional value, standing for Python's `None` or a present value. */
  datatype Option<+T> = None | Some(value: T)

  /** An 8-bit byte, as found in a Python `bytes` object. */
  type byte = b: int | 0 <= b < 256
}
