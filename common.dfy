/** Types shared by the ICSSG modules. */
module Common {

  /** An optional value, for decoders that may reject their input. */
  datatype Option<+T> = None | Some(value: T)

  const TWO_POW_32: nat := 0x1_0000_0000

  /** A C `u32`. */
  newtype u32 = x: int | 0 <= x < TWO_POW_32

  /** A word with exactly one bit set. */
  predicate IsSingleBit(b: bv32) {
    b != 0 && b & (b - 1) == 0
  }
}
