/** Values that may be missing. */
module Options {
  datatype Option<+T> = None | Some(value: T)
}

/** The eight-bit values that streams are made of. */
module Octets {
  newtype byte = x: int | 0 <= x < 256
}
