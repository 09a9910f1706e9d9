/** The few facts about products and quotients that the solver has to be told. */
module Arithmetic {

  lemma ProductNonNegative(a: nat, b: nat)
    ensures a * b >= 0
  {
  }

  lemma Distribute(x: int, a: int, b: int)
    ensures x * (a + b) == x * a + x * b
  {
  }

  /** A larger factor makes a product larger by at least the other factor. */
  lemma ProductStep(a: nat, x: int, y: int)
    ensures x < y ==> a * x + a <= a * y
  {
    if x < y {
      ProductNonNegative(a, y - x - 1);
      Distribute(a, y - x - 1, x);
      Distribute(a, y - 1, 1);
    }
  }

  lemma ProductOrder(t: nat, x: int, y: int)
    requires t > 0
    ensures t * x <= t * y <==> x <= y
  {
    ProductStep(t, x, y);
    ProductStep(t, y, x);
  }

  lemma Division(n: int, d: nat)
    requires d > 0
    ensures n == d * (n / d) + n % d && 0 <= n % d < d
  {
  }
}
