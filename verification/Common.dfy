/** Types that several modules share. */
module Common {

  datatype Option<+T> = None | Some(value: T)

  type byte = x: int | 0 <= x < 256

  /** Two bytes, the high one first. */
  function Word(hi: byte, lo: byte): int { 256 * hi + lo }
}
