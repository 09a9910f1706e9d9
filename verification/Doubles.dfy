/** The comparison of a quotient of doubles with 0.67, rounded as IEEE 754 arithmetic rounds it. */
module Doubles {
  import opened Arithmetic

  /** A double has 53 significant bits. */
  const TWO53: int := 0x20_0000_0000_0000

  /** The double nearest to 0.67 is this many times 2^-53. */
  const MANTISSA: int := 6_034_823_500_676_465

  /** The integer nearest to `a / b`, the even one of two equally near. */
  function HalfEven(a: nat, b: nat): nat
    requires b > 0
  {
    var q, r := a / b, a % b;
    if 2 * r < b || (2 * r == b && q % 2 == 0) then q else q + 1
  }

  /** `n` rounded to a multiple of `u` or of the first doubling of `u` that leaves 53 significant bits. */
  function RoundTo(n: nat, u: nat): nat
    requires u > 0
    decreases if n >= u then n - u else 0
  {
    if n < 0x20_0000_0000_0000 * u then HalfEven(n, u) * u else RoundTo(n, 2 * u)
  }

  /** `(double)n` for an unsigned integer, which is again an integer. */
  function ToDouble(n: nat): (d: nat)
    ensures n < TWO53 ==> d == n
  {
    RoundTo(n, 1)
  }

  /**
   * `(double)part / total >= 0.67`: the rounded quotient reaches the constant exactly when the quotient lies
   * above the midpoint between the constant and the double before it.
   */
  predicate AtLeast67(part: nat, total: nat) {
    ToDouble(total) > 0 && 2 * 0x20_0000_0000_0000 * ToDouble(part) > (2 * MANTISSA - 1) * ToDouble(total)
  }

  /**
   * Indeed this is rounding the quotient to a multiple of 2^-53, as doubles between one half and one are
   * rounded; below and above, the finer or coarser rounding is on the same side of 0.67.
   */
  lemma AtLeast67IsRounded(part: nat, total: nat)
    requires ToDouble(total) > 0
    ensures AtLeast67(part, total) <==> HalfEven(ToDouble(part) * 0x20_0000_0000_0000, ToDouble(total)) >= MANTISSA
  {
    OddIsReached(ToDouble(part) * 0x20_0000_0000_0000, ToDouble(total), MANTISSA);
  }

  /** The result is the integer nearest to `a / b`. */
  lemma HalfEvenIsNearest(a: nat, b: nat)
    requires b > 0
    ensures 2 * a - b <= 2 * (HalfEven(a, b) * b) <= 2 * a + b
  {
    Division(a, b);
    Distribute(b, a / b, 1);
  }

  /** An odd number is reached exactly above the midpoint before it: the tie goes to its even neighbour. */
  lemma OddIsReached(a: nat, b: nat, m: nat)
    requires b > 0 && m % 2 == 1
    ensures HalfEven(a, b) >= m <==> 2 * a > (2 * m - 1) * b
  {
    var q, r := a / b, a % b;
    Division(a, b);
    assert (2 * m - 1) * b == 2 * (b * m) - b;
    if q >= m {
      ProductOrder(b, m, q);
    } else if q <= m - 2 {
      ProductStep(b, q, m - 1);
      Distribute(b, m, -1);
    } else {
      Distribute(b, m, -1);
    }
  }

  /**
   * The exact meaning of the comparison for integers up to 2^53: it succeeds when 67% is reached, and
   * also when it is missed by less than the rounding of the quotient.
   */
  lemma AtLeast67Exactly(part: nat, total: nat)
    requires part < TWO53 && 0 < total < TWO53
    ensures AtLeast67(part, total) <==> TWO53 * (67 * total - 100 * part) < 14 * total
  {
  }

  /** A share that misses 67% by the least amount belongs to a total ending in 03. */
  lemma LeastMiss(part: nat, total: nat)
    requires 0 < TWO53 * (67 * total - 100 * part) < 14 * total
    ensures total >= 643_371_375_338_703
  {
  }

  /** Below this total no smaller share succeeds. */
  lemma ExactBelow(part: nat, total: nat)
    requires part < TWO53 && 0 < total < 643_371_375_338_703
    ensures AtLeast67(part, total) <==> 100 * part >= 67 * total
  {
    AtLeast67Exactly(part, total);
    if 67 * total > 100 * part && AtLeast67(part, total) {
      LeastMiss(part, total);
    }
  }

  /** At this total a smaller share does succeed. */
  lemma FirstRoundedUp(part: nat, total: nat)
    requires part == 431_058_821_476_931 && total == 643_371_375_338_703
    ensures AtLeast67(part, total) && 100 * part < 67 * total
  {
    AtLeast67Exactly(part, total);
  }

  /** All of a total succeeds, however large. */
  lemma AllSuffices(total: nat)
    requires total > 0
    ensures AtLeast67(total, total)
  {
    NotHalved(total);
  }

  /** Rounding never halves a number. */
  lemma {:induction false} RoundNotHalved(n: nat, u: nat)
    requires 0 < u <= n
    ensures 2 * RoundTo(n, u) >= n
    decreases n - u
  {
    if n < 0x20_0000_0000_0000 * u {
      HalfEvenIsNearest(n, u);
    } else {
      RoundNotHalved(n, 2 * u);
    }
  }

  lemma NotHalved(n: nat)
    requires n > 0
    ensures 2 * ToDouble(n) >= n
  {
    RoundNotHalved(n, 1);
  }
}
