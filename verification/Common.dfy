/** Types the modules share. */
module Common {
  newtype uint8 = x: int | 0 <= x < 256

  datatype Option<+T> = None | Some(value: T)
}
