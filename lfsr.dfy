/**
 * The pseudo-random generator behind the backtrace exercise: a 16-bit
 * Fibonacci linear-feedback shift register stepped through a zero-terminated
 * tap list whose first entry is the state mask, seeded from a key press, and
 * the rule that picks the next function (or the backtrace) from its output.
 */
module Lfsr {
  /** The 12-bit tap list: state mask 0xFFF, then taps at bits 11, 5, 3 and 0, then the terminator. */
  const TAPS12: seq<bv16> := [0xFFF, 1 << 11, 1 << 5, 1 << 3, 1 << 0, 0]

  /** Some entry at index i or later ends the tap list. */
  predicate TerminatedFrom(taps: seq<bv16>, i: nat) {
    exists j :: i <= j < |taps| && taps[j] == 0
  }

  /** The feedback bit: the parity of the state bits selected by taps[i..] up to the terminator. */
  function Feedback(taps: seq<bv16>, state: bv16, i: nat): (tap: bv16)
    requires TerminatedFrom(taps, i)
    ensures tap <= 1
    decreases |taps| - i
  {
    if taps[i] == 0 then 0
    else
      assert TerminatedFrom(taps, i + 1) by {
        var j :| i <= j < |taps| && taps[j] == 0;
      }
      (if taps[i] & state != 0 then 1 else 0) ^ Feedback(taps, state, i + 1)
  }

  /** The state after one step: shift left, feed the parity in at bit 0, keep the bits of taps[0]. */
  function Next(taps: seq<bv16>, state: bv16): bv16
    requires |taps| > 0 && TerminatedFrom(taps, 1)
  {
    ((state << 1) | Feedback(taps, state, 1)) & taps[0]
  }

  /** With the 12-bit taps the feedback is bit 11 xor bit 5 xor bit 3 xor bit 0 of the state. */
  lemma Taps12Feedback(state: bv16)
    ensures TerminatedFrom(TAPS12, 1)
    ensures Feedback(TAPS12, state, 1) ==
      ((state >> 11) ^ (state >> 5) ^ (state >> 3) ^ state) & 1
  {
    assert TAPS12[5] == 0;
    assert Feedback(TAPS12, state, 5) == 0;
  }

  /** A step with the 12-bit taps keeps the state within 12 bits. */
  lemma Taps12Bounded(state: bv16)
    ensures TerminatedFrom(TAPS12, 1)
    ensures Next(TAPS12, state) <= 0xFFF
  {
    Taps12Feedback(state);
  }

  /**
   * The zero state is a fixed point of the register, which is why the seed 0
   * is replaced; every nonzero 12-bit state steps to a nonzero 12-bit state.
   */
  lemma Taps12KeepsNonZero(state: bv16)
    ensures TerminatedFrom(TAPS12, 1)
    ensures Next(TAPS12, 0) == 0
    ensures 0 < state <= 0xFFF ==> 0 < Next(TAPS12, state) <= 0xFFF
  {
    Taps12Feedback(state);
    Taps12Feedback(0);
  }

  /** On 12-bit states a step is one-to-one: two different states never merge. */
  lemma Taps12Injective(s1: bv16, s2: bv16)
    requires s1 <= 0xFFF && s2 <= 0xFFF
    ensures TerminatedFrom(TAPS12, 1)
    ensures Next(TAPS12, s1) == Next(TAPS12, s2) ==> s1 == s2
  {
    Taps12Feedback(s1);
    Taps12Feedback(s2);
  }

  /** The generator's global state, lfsr_state. */
  class Generator {
    var state: bv16

    constructor ()
      ensures state == 0
    {
      state := 0;
    }

    /** lfsr_inc_16 applied to this generator's state: step it and return the new state. */
    method Inc(taps: seq<bv16>) returns (r: bv16)
      requires |taps| > 0 && TerminatedFrom(taps, 1)
      modifies this
      ensures state == Next(taps, old(state)) && r == state
    {
      var tap: bv16 := 0;
      var i := 1;
      while taps[i] != 0
        invariant 1 <= i < |taps| && TerminatedFrom(taps, i)
        invariant tap ^ Feedback(taps, state, i) == Feedback(taps, state, 1)
        decreases |taps| - i
      {
        assert TerminatedFrom(taps, i + 1) by {
          var j :| i <= j < |taps| && taps[j] == 0;
        }
        tap := tap ^ (if taps[i] & state != 0 then 1 else 0);
        i := i + 1;
      }
      state := ((state << 1) | tap) & taps[0];
      r := state;
    }

    /** _srand: store the seed, except that 0 (a dead state) becomes 1. */
    method Srand(seed: bv16)
      modifies this
      ensures state != 0
      ensures state == if seed == 0 then 1 else seed
    {
      if seed == 0 {
        state := 1;
      } else {
        state := seed;
      }
    }

    /** _rand: one step with the 12-bit taps; the result is the new state minus one, modulo 2^16. */
    method Rand() returns (r: bv16)
      modifies this
      ensures TerminatedFrom(TAPS12, 1)
      ensures state == Next(TAPS12, old(state)) && r == state - 1
    {
      assert TAPS12[5] == 0;
      var next := Inc(TAPS12);
      r := next - 1;
    }
  }

  datatype Target = ShowBacktrace | FunctionA | FunctionB | FunctionC | FunctionD

  /**
   * The choice made by JUMP_TO_RANDOM_FUNCTION_OR_PRINT_BT from a random
   * value: its low nibble 0 prints the backtrace, otherwise its two low bits
   * pick A, B, C or D.
   */
  function Dispatch(random: bv16): Target {
    var r := random & 0xF;
    if r == 0 then ShowBacktrace
    else
      match r & 3
      case 0 => FunctionA
      case 1 => FunctionB
      case 2 => FunctionC
      case _ => FunctionD
  }

  /**
   * Read through the generator: after a step to next, the backtrace is shown
   * exactly when the low nibble of next is 1, and every function stays
   * reachable (A only through the nibbles 5, 9 and 13).
   */
  lemma DispatchFromState(next: bv16)
    ensures Dispatch(next - 1) == ShowBacktrace <==> next & 0xF == 1
    ensures Dispatch(next - 1) == FunctionA <==> next & 0xF in {5, 9, 13}
    ensures Dispatch(next - 1) == FunctionB <==> next & 0xF in {2, 6, 10, 14}
    ensures Dispatch(next - 1) == FunctionC <==> next & 0xF in {3, 7, 11, 15}
    ensures Dispatch(next - 1) == FunctionD <==> next & 0xF in {0, 4, 8, 12}
  {
    var low := (next - 1) & 0xF;
    assert low == ((next & 0xF) + 15) & 0xF;
  }
}
