/**
 * The LED exercise: keep the upper byte of the LED register, invert the
 * other 24 bits, and print a register value as 32 binary digits, least
 * significant bit first.
 */
module Leds {
  const MASK: bv32 := 0xFF00_0000

  /** The transform in main: save the masked byte, invert, clear that byte, restore it. */
  function Transform(leds: bv32): (r: bv32)
    ensures r & MASK == leds & MASK
    ensures r & !MASK == !leds & !MASK
  {
    var fort := leds & MASK;
    var inverted := !leds;
    var cleared := inverted & !MASK;
    cleared | fort
  }

  /** Applying the transform twice gives back the original register. */
  lemma TransformInvolution(leds: bv32)
    ensures Transform(Transform(leds)) == leds
  {
  }

  /** The digit printLed emits for bit i. */
  function Digit(leds: bv32, i: bv32): char
    requires i < 32
  {
    if (leds >> i) & 1 == 1 then '1' else '0'
  }

  /** printLed: one digit per bit, least significant first, then a newline. */
  method PrintLed(leds: bv32) returns (out: string)
    ensures |out| == 33 && out[32] == '\n'
    ensures forall i: bv32 :: i < 32 ==> out[i] == Digit(leds, i)
  {
    out := [];
    var i: bv32 := 0;
    while i < 32
      invariant i <= 32 && |out| == i as int
      invariant forall k: bv32 :: k < i ==> out[k] == Digit(leds, k)
    {
      var value := (leds >> i) & 1;
      out := out + [if value == 1 then '1' else '0'];
      i := i + 1;
    }
    out := out + "\n";
  }

  /** The transform flips exactly the low 24 bits. */
  lemma TransformIsXor(leds: bv32)
    ensures Transform(leds) == leds ^ 0x00FF_FFFF
  {
  }

  /** The printed digits of the transformed register: the top 8 are unchanged... */
  lemma TransformKeepsTopDigits(leds: bv32, i: bv32)
    requires 24 <= i < 32
    ensures Digit(Transform(leds), i) == Digit(leds, i)
  {
    TransformIsXor(leds);
    XorBit(leds, 0x00FF_FFFF, i);
  }

  /** ...and the low 24 are flipped. */
  lemma TransformFlipsLowDigits(leds: bv32, i: bv32)
    requires i < 24
    ensures Digit(Transform(leds), i) != Digit(leds, i)
  {
    TransformIsXor(leds);
    XorBit(leds, 0x00FF_FFFF, i);
  }

  lemma XorBit(a: bv32, c: bv32, i: bv32)
    requires i < 32
    ensures ((a ^ c) >> i) & 1 == ((a >> i) & 1) ^ ((c >> i) & 1)
  {
  }
}
