/**
 * dot_product: despite its name, the sum over the first size positions of
 * a[i] + b[i], accumulated in a C int.
 */
module DotProduct {
  const INT_MIN := -0x8000_0000
  const INT_MAX := 0x7FFF_FFFF

  newtype Int32 = x: int | -0x8000_0000 <= x <= 0x7FFF_FFFF

  /** The sum of a[i] + b[i] over the first n positions, over unbounded integers. */
  function PairSum(a: seq<Int32>, b: seq<Int32>, n: nat): int
    requires n <= |a| && n <= |b|
  {
    if n == 0 then 0 else PairSum(a, b, n - 1) + (a[n - 1] as int + b[n - 1] as int)
  }

  /** The sum of the first n elements. */
  function Total(a: seq<Int32>, n: nat): int
    requires n <= |a|
  {
    if n == 0 then 0 else Total(a, n - 1) + a[n - 1] as int
  }

  /**
   * The accumulation never leaves the range of int: neither an element sum
   * nor a running total overflows (signed overflow is undefined in C).
   */
  predicate NoOverflow(a: seq<Int32>, b: seq<Int32>, size: nat)
    requires size <= |a| && size <= |b|
  {
    forall i :: 0 <= i < size ==>
      INT_MIN <= a[i] as int + b[i] as int <= INT_MAX &&
      INT_MIN <= PairSum(a, b, i + 1) <= INT_MAX
  }

  /** dot_product: 0 for a non-positive size, otherwise the pairwise sum; a and b are only read. */
  method Compute(a: array<Int32>, b: array<Int32>, size: Int32) returns (r: Int32)
    requires size <= 0 || (size as int <= a.Length && size as int <= b.Length)
    requires size > 0 ==> NoOverflow(a[..], b[..], size as nat)
    ensures size <= 0 ==> r == 0
    ensures size > 0 ==> r as int == PairSum(a[..], b[..], size as nat)
  {
    r := 0;
    var i: Int32 := 0;
    while i < size
      invariant 0 <= i as int <= if size < 0 then 0 else size as int
      invariant r as int == PairSum(a[..], b[..], i as nat)
    {
      r := r + (a[i] + b[i]);
      i := i + 1;
    }
  }

  /** The pairwise sum is the sum of the two totals: an addition, not a product. */
  lemma {:induction false} PairSumIsSumOfTotals(a: seq<Int32>, b: seq<Int32>, n: nat)
    requires n <= |a| && n <= |b|
    ensures PairSum(a, b, n) == Total(a, n) + Total(b, n)
  {
    if n > 0 {
      PairSumIsSumOfTotals(a, b, n - 1);
    }
  }

  /** Swapping the two arrays does not change the result. */
  lemma {:induction false} PairSumSymmetric(a: seq<Int32>, b: seq<Int32>, n: nat)
    requires n <= |a| && n <= |b|
    ensures PairSum(a, b, n) == PairSum(b, a, n)
  {
    if n > 0 {
      PairSumSymmetric(a, b, n - 1);
    }
  }

  /** The overflow condition is itself symmetric, so a swapped call is just as well defined. */
  lemma NoOverflowSymmetric(a: seq<Int32>, b: seq<Int32>, size: nat)
    requires size <= |a| && size <= |b|
    requires NoOverflow(a, b, size)
    ensures NoOverflow(b, a, size)
  {
    forall k | 1 <= k <= size ensures PairSum(b, a, k) == PairSum(a, b, k) {
      PairSumSymmetric(a, b, k);
    }
  }
}
