/**
 * config_register: a fixed sequence of bit operations on a 32-bit register
 * value, followed by a signed division by 8 and a final mask.
 */
module Gpio {
  const MASK: bv32 := 0xFF00_A5A5
  const UPPER_BYTE_MASK: bv32 := 0xFF00_0000
  /** 0xFFEEDD << 3, the final mask. */
  const FINAL_MASK: bv32 := 0x07FF_76E8

  /** Bit 31 clear: the register value is non-negative as a C int. */
  predicate NonNegative(v: bv32) {
    v < 0x8000_0000
  }

  /**
   * C's signed division by 8 on the two's-complement value, truncating
   * towards zero: a non-negative value divides as unsigned, a negative one
   * is negated, divided and negated back.
   */
  function SignedDiv8(v: bv32): (r: bv32)
    ensures NonNegative(v) ==> NonNegative(r) && r * 8 <= v && v - r * 8 < 8
    ensures !NonNegative(v) ==> (0 - r) * 8 <= 0 - v && (0 - v) - (0 - r) * 8 < 8
  {
    if NonNegative(v) then v / 8 else 0 - (0 - v) / 8
  }

  /** The value after the clear-bit-0, set-nibble, mask and upper-byte steps, before the division. */
  function BeforeDivision(gpio: bv32): bv32 {
    var v := gpio & !1;
    var v := v | (0xF << 4);
    var v := v & MASK;
    var v := v & !UPPER_BYTE_MASK;
    v | (0x66 << 24)
  }

  /** config_register, step by step on the register value. */
  method ConfigRegister(gpio: bv32) returns (r: bv32)
    ensures r == ((BeforeDivision(gpio) >> 3) | 0xA5) & FINAL_MASK
    ensures r & !FINAL_MASK == 0
    ensures NonNegative(r)
  {
    r := gpio;
    r := r & !1;
    r := r | (0xF << 4);
    r := r & MASK;
    r := r & !UPPER_BYTE_MASK;
    r := r | (0x66 << 24);
    r := SignedDiv8(r);
    r := (r | 0xA5) & FINAL_MASK;
    DivisionIsShift(gpio);
  }

  /**
   * The first steps clear bit 0 and set bits 4 to 7 (the comment in the
   * source says 5 to 8); after the mask only bits of 0xFF00A5A5 survive, the
   * upper byte is exactly 0x66 and bits 16 to 23 are clear.
   */
  lemma BeforeDivisionBits(gpio: bv32)
    ensures BeforeDivision(gpio) & 1 == 0
    ensures BeforeDivision(gpio) & 0xF0 == 0xA0
    ensures BeforeDivision(gpio) >> 24 == 0x66
    ensures BeforeDivision(gpio) & 0x00FF_0000 == 0
    ensures BeforeDivision(gpio) & !MASK & 0x00FF_FFFF == 0
  {
  }

  /** The value divided is non-negative, so the signed division is a plain right shift by 3. */
  lemma DivisionIsShift(gpio: bv32)
    ensures NonNegative(BeforeDivision(gpio))
    ensures SignedDiv8(BeforeDivision(gpio)) == BeforeDivision(gpio) >> 3
  {
    BeforeDivisionKeeps(gpio);
  }

  /**
   * Only the input bits under 0xA504 reach the result: bit 0, bits 4 to 7 and
   * the bits outside 0xFF00A5A5 below the upper byte are all overwritten.
   */
  lemma BeforeDivisionKeeps(gpio: bv32)
    ensures BeforeDivision(gpio) == 0x6600_00A0 | (gpio & 0xA504)
  {
  }
}
