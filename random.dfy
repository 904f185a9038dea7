/**
 * The integer hash that drives pivot choice (source/random.hpp).
 *
 * The C++ code computes on a 32-bit `int` and relies on wrap-around; the model
 * computes on `bv32`, where every operation wraps modulo 2^32. A C++ `int` is
 * non-negative exactly when bit 31 of its pattern is clear, i.e. when the
 * pattern is below 0x8000_0000.
 */
module Random {

  /** x' = (x << 13) ^ x, then x' * (x' * x' * 15731 + 789221) + 1376312589, all modulo 2^32. */
  function RandomInt(x: bv32): bv32 {
    var y := (x << 13) ^ x;
    y * (y * y * 15731 + 789221) + 1376312589
  }

  /** `& 0x7fffffff`: keep the low 31 bits, clear the sign bit. */
  function ClearSignBit(h: bv32): (r: bv32)
    ensures r < 0x8000_0000
  {
    h & 0x7fff_ffff
  }

  /** `randomInt_Positive(x) == randomInt(x) & 0x7fffffff`. */
  function RandomIntPositive(x: bv32): (r: bv32)
    ensures r < 0x8000_0000
  {
    ClearSignBit(RandomInt(x))
  }

  /** Clearing the sign bit keeps the low 31 bits and changes only a negative value. */
  lemma ClearSignBitKeepsLowBits(h: bv32)
    ensures ClearSignBit(h) & 0x7fff_ffff == h & 0x7fff_ffff
    ensures ClearSignBit(h) & 0x8000_0000 == 0
    ensures (ClearSignBit(h) == h) == (h < 0x8000_0000)
  {
  }

  /** Two sample values of the hash: one that is already positive, one that is not. */
  lemma SampleValues()
    ensures RandomInt(0) == 0x5208_dd0d && RandomIntPositive(0) == 0x5208_dd0d
    ensures RandomInt(3) == 0xd075_b8dd && RandomIntPositive(3) == 0x5075_b8dd
  {}
}
