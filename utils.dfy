/**
  The padding helper of the sorting networks: the smallest power of two that
  covers a length (src/nada_data/utils.py).
 */
module Utils {

  predicate IsPowerOfTwo(p: int)
    decreases if p > 0 then p else 0
  {
    p == 1 || (p > 1 && p % 2 == 0 && IsPowerOfTwo(p / 2))
  }

  /**
    Reference definition of the padded size, by halving rather than by the
    doubling loop of the source.
   */
  function PaddedSize(n: int): (p: nat)
    decreases if n > 1 then n else 0
  {
    if n <= 1 then 1 else 2 * PaddedSize((n + 1) / 2)
  }

  lemma {:induction false} PowerOfTwoDoubles(p: int)
    requires IsPowerOfTwo(p)
    ensures IsPowerOfTwo(2 * p)
  {
    assert (2 * p) / 2 == p;
  }

  lemma {:induction false} PowerOfTwoPositive(p: int)
    requires IsPowerOfTwo(p)
    ensures p >= 1
  {
  }

  /** Between two different powers of two there is a factor of two at least. */
  lemma {:induction false} PowersOfTwoSpread(p: int, q: int)
    requires IsPowerOfTwo(p) && IsPowerOfTwo(q) && p < q
    ensures 2 * p <= q
    decreases q
  {
    if p != 1 {
      PowersOfTwoSpread(p / 2, q / 2);
    }
  }

  /** A power of two in `[n, 2n)` is determined by `n`. */
  lemma PowerOfTwoUnique(n: int, p: int, q: int)
    requires n >= 1
    requires IsPowerOfTwo(p) && n <= p < 2 * n
    requires IsPowerOfTwo(q) && n <= q < 2 * n
    ensures p == q
  {
    if p < q {
      PowersOfTwoSpread(p, q);
    } else if q < p {
      PowersOfTwoSpread(q, p);
    }
  }

  /** The padded size is a power of two covering `n`, and the least one. */
  lemma {:induction false} PaddedSizeSpec(n: int)
    ensures IsPowerOfTwo(PaddedSize(n))
    ensures PaddedSize(n) >= n
    ensures n >= 1 ==> PaddedSize(n) < 2 * n
    decreases if n > 1 then n else 0
  {
    if n > 1 {
      var m := (n + 1) / 2;
      PaddedSizeSpec(m);
      PowerOfTwoDoubles(PaddedSize(m));
    }
  }

  /** `next_power_of_two(n)`: doubles `p` from 1 until it reaches `n`. */
  method NextPowerOfTwo(n: int) returns (p: nat)
    ensures n <= 0 ==> p == 1
    ensures IsPowerOfTwo(p) && p >= n
    ensures n >= 1 ==> p < 2 * n
    ensures p == PaddedSize(n)
  {
    if n <= 0 {
      return 1;
    }
    p := 1;
    while p < n
      invariant IsPowerOfTwo(p)
      invariant p < 2 * n
    {
      PowerOfTwoDoubles(p);
      p := p * 2;
    }
    PaddedSizeSpec(n);
    PowerOfTwoUnique(n, p, PaddedSize(n));
  }

  /** The doctest values: 2 maps to 2, 37 to 64 and -10 to 1. */
  lemma PaddedSizeExamples()
    ensures PaddedSize(2) == 2 && PaddedSize(37) == 64 && PaddedSize(-10) == 1
  {
  }
}
