/** Value types shared by every part of the model. */
module Types {

  /** One octet, as held by a Python `bytes` object. */
  type Byte = b: int | 0 <= b < 256

  /** A Python `bytes` value. */
  type Bytes = seq<Byte>

  /** A value or Python's `None`. */
  datatype Option<+T> = None | Some(value: T)
}
