/**
 * The portable leading-zero count: a single-bit mask walks down from bit 31
 * until it meets a set bit of the value, counting the zero bits it passes.
 */
module LeadingZeros {
  /** No bit at position 32 - count or above is set: the top count bits are zero. */
  predicate TopClear(value: bv32, count: bv32)
    requires count <= 32
  {
    value >> (32 - count) == 0
  }

  /** count is the number of leading zeros: bit 31 - count is set and every bit above it is clear. */
  predicate IsLeadingZeroCount(value: bv32, count: bv32) {
    count <= 31 && value & (1 << (31 - count)) != 0 && TopClear(value, count)
  }

  /**
   * leading_zero_count_c. The C loop never ends on 0 (the mask shifts out to
   * zero and the test stays true), so the value must be nonzero.
   */
  method LeadingZeroCount(value: bv32) returns (count: bv32)
    requires value != 0
    ensures IsLeadingZeroCount(value, count)
  {
    count := 0;
    var mask: bv32 := 1 << 31;
    while value & mask == 0
      invariant count <= 31
      invariant mask == 1 << (31 - count)
      invariant TopClear(value, count)
      decreases 31 - count
    {
      mask := mask >> 1;
      count := count + 1;
    }
  }

  /** At most one count fits the characterisation, so the loop's answer is the only one. */
  lemma LeadingZeroCountUnique(value: bv32, c1: bv32, c2: bv32)
    requires IsLeadingZeroCount(value, c1) && IsLeadingZeroCount(value, c2)
    ensures c1 == c2
  {
  }

  /** The test in main: 0x87 has 24 leading zeros, and no other count fits. */
  lemma LeadingZeroCountOf0x87(c: bv32)
    ensures IsLeadingZeroCount(0x87, c) <==> c == 24
  {
    assert IsLeadingZeroCount(0x87, 24);
    if IsLeadingZeroCount(0x87, c) {
      LeadingZeroCountUnique(0x87, c, 24);
    }
  }
}
