/** The size-class rounding that the scratch pool asks of Bits.NextPowerOf2. */
module Bits {

  /** 1, 2, 4, 8, ... */
  ghost predicate IsPowerOfTwo(n: int)
    decreases if n < 0 then 0 else n
  {
    n == 1 || (n > 1 && n % 2 == 0 && IsPowerOfTwo(n / 2))
  }

  /** The smallest power of two that is at least `n`. */
  function NextPowerOf2(n: nat): (r: nat)
    requires n >= 1
    ensures IsPowerOfTwo(r)
    ensures n <= r < 2 * n
    decreases n
  {
    if n == 1 then 1
    else
      var half := NextPowerOf2((n + 1) / 2);
      assert half == 1 || half % 2 == 0;
      2 * half
  }

  /** Between two distinct powers of two the larger is at least twice the smaller. */
  lemma {:induction false} PowerOfTwoGap(p: int, q: int)
    requires IsPowerOfTwo(p) && IsPowerOfTwo(q) && p < q
    ensures 2 * p <= q
    decreases q
  {
    if p > 1 {
      PowerOfTwoGap(p / 2, q / 2);
    }
  }

  /** No power of two at least `n` is smaller than NextPowerOf2(n): it is the least one. */
  lemma NextPowerOf2IsLeast(n: nat, q: int)
    requires n >= 1 && IsPowerOfTwo(q) && q >= n
    ensures NextPowerOf2(n) <= q
  {
    var r := NextPowerOf2(n);
    if q < r {
      PowerOfTwoGap(q, r);
    }
  }

  /** A request for 3 pages uses size class 4. */
  lemma SizeClassOfThree()
    ensures NextPowerOf2(3) == 4
  {
    assert NextPowerOf2(2) == 2;
  }

  /** A request for 5 pages uses size class 8. */
  lemma SizeClassOfFive()
    ensures NextPowerOf2(5) == 8
  {
    SizeClassOfThree();
  }

  /** A request for 8 pages uses size class 8. */
  lemma SizeClassOfEight()
    ensures NextPowerOf2(8) == 8
  {
    assert NextPowerOf2(4) == 4 by { SizeClassOfThree(); }
  }
}
