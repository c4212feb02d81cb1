/** Byte-level conversions between Python's unbounded integers and the
    8-bit values that `bytes` objects and the checksums hold. */
module Bits {

  /** Python's `x & 0xFF` for any integer `x`, negative ones included: the
      two's-complement low byte, which is the Euclidean remainder by 256. */
  function Low(x: int): bv8 {
    (x % 256) as bv8
  }

  /** Masking a value that already is a byte changes nothing. */
  lemma LowOfByte(b: bv8)
    ensures Low(b as int) == b
  {
    assert 0 <= b as int < 256;
    assert (b as int) % 256 == b as int;
  }

  /** A byte is determined by its top bit and by what is left after one
      shift to the left ... */
  lemma EqualByTopBitAndShift(c: bv8, d: bv8)
    ensures c << 1 == d << 1 && c & 0x80 == d & 0x80 ==> c == d
  {
  }

  /** ... and a shift to the left always clears bit 0. */
  lemma ShiftsAgreeInBitZero(c: bv8, d: bv8)
    ensures ((c << 1) ^ (d << 1)) & 1 == 0
  {
  }
}
