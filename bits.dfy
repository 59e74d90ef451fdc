/** Facts linking 32-bit and 8-bit words to the integers they denote, each
    stated on its own so that the solver sees nothing else. */
module Bits {
  lemma LowBitsBound(x: bv32)
    ensures (x & 0x00FF_FFFF) as int * 4 < 0x400_0000
  {
    LowBits(x);
  }

  lemma LowBits(x: bv32)
    ensures (x & 0x00FF_FFFF) as int < 0x100_0000
  {
    var z := (x & 0x00FF_FFFF) as bv24;
    assert z as bv32 == x & 0x00FF_FFFF;
    Widen24(z);
    Bound24(z);
  }

  lemma Widen24(z: bv24)
    ensures (z as bv32) as int == z as int
  {
  }

  lemma Bound24(z: bv24)
    ensures z as int < 0x100_0000
  {
  }

  lemma NonZeroWord(x: bv32)
    ensures x != 0 ==> x as int * 4 >= 4
  {
  }

  /** `(x ^ 0xFF) + 1` on a uint8 is its negation modulo 256. */
  lemma NegateByte(x: bv8)
    ensures ((x ^ 0xFF) + 1) as int == (256 - x as int) % 256
  {
  }
}
