/** Facts about products and quotients that several proofs need. */
module Arithmetic {
  lemma MulMonotone(n: nat, x: int, y: int)
    ensures x <= y ==> n * x <= n * y
  {
    if x <= y {
      assert n * (y - x) >= 0;
    }
  }

  lemma MulDistributes(n: int, x: int, y: int)
    ensures n * (x + y) == n * x + n * y
  {
  }

  lemma DivMod(x: nat, d: nat)
    requires d > 0
    ensures x == d * (x / d) + x % d && 0 <= x / d && 0 <= x % d < d
  {
  }

  lemma DivUnique(x: int, d: int, q: int, r: int)
    requires x == d * q + r && 0 <= r < d
    ensures x / d == q && x % d == r
  {
    var q' := x / d;
    MulMonotone(d, q - q', -1);
    MulMonotone(d, 1, q - q');
  }
}
