/** xxhash.h: the portable 64 by 64 to 128 bit multiplication. */
module Multiply128 {
  import opened Arithmetic
  import opened Words

  const B := 0x1_0000_0000

  type Word64 = w: int | 0 <= w < 0x1_0000_0000_0000_0000

  /** Addition and shifting left as the 64-bit processor does them. */
  function Add64(x: Word64, y: Word64): Word64 {
    (x + y) % TWO_TO_THE_64
  }

  function Shl32(x: Word64): Word64 {
    x * B % TWO_TO_THE_64
  }

  /** XXH_mult32to64, of two values below 2^32. */
  function Mult32To64(x: Word64, y: Word64): (r: Word64)
    requires x < B && y < B
    ensures r == x * y <= (B - 1) * (B - 1)
  {
    HalvesBound(x, y);
    x * y
  }

  lemma HalvesBound(x: nat, y: nat)
    requires x < B && y < B
    ensures 0 <= x * y <= (B - 1) * (B - 1)
  {
    MulMonotone(x, y, B - 1);
    MulMonotone(B - 1, x, B - 1);
  }

  datatype Product = Product(low64: Word64, high64: Word64)

  /** The cross products added together. The `|` of disjoint bits is an addition. */
  function Combine(loLo: Word64, hiLo: Word64, loHi: Word64, hiHi: Word64): Product {
    var cross := Add64(Add64(loLo / B, hiLo % B), loHi);
    var upper := Add64(Add64(hiLo / B, cross / B), hiHi);
    var lower := Add64(Shl32(cross), loLo % B);
    Product(lower, upper)
  }

  /** XXH_mult64to128. */
  function Mult64To128(lhs: Word64, rhs: Word64): Product {
    Combine(Mult32To64(lhs % B, rhs % B), Mult32To64(lhs / B, rhs % B),
            Mult32To64(lhs % B, rhs / B), Mult32To64(lhs / B, rhs / B))
  }

  lemma Halves(a: int, b: int, c: int, d: int)
    ensures (a * B + b) * (c * B + d) == (a * c) * TWO_TO_THE_64 + (a * d + b * c) * B + b * d
  {
    calc {
      (a * B + b) * (c * B + d);
      (a * B) * (c * B + d) + b * (c * B + d);
      (a * B) * (c * B) + (a * B) * d + b * (c * B) + b * d;
      { assert (a * B) * (c * B) == (a * c) * TWO_TO_THE_64; assert (a * B) * d == (a * d) * B; assert b * (c * B) == (b * c) * B; }
      (a * c) * TWO_TO_THE_64 + (a * d + b * c) * B + b * d;
    }
  }

  /** Shifting the cross sum drops exactly what `upper` takes up. */
  lemma ShiftedCross(cross: Word64)
    ensures Shl32(cross) == cross % B * B
  {
    assert cross * B == (cross / B) * TWO_TO_THE_64 + cross % B * B;
  }

  ghost predicate ProductOfHalves(x: int) {
    0 <= x <= (B - 1) * (B - 1)
  }

  /** The sums on unbounded integers stay below 2^64. */
  lemma SumsFit(loLo: Word64, hiLo: Word64, loHi: Word64, hiHi: Word64)
    requires ProductOfHalves(loLo) && ProductOfHalves(hiLo) && ProductOfHalves(loHi) && ProductOfHalves(hiHi)
    ensures var cross := loLo / B + hiLo % B + loHi;
      && cross < TWO_TO_THE_64 && hiLo / B + cross / B + hiHi < TWO_TO_THE_64 && cross % B * B + loLo % B < TWO_TO_THE_64
  {
  }

  lemma AddFits(x: Word64, y: Word64)
    requires x + y < TWO_TO_THE_64
    ensures Add64(x, y) == x + y
  {
  }

  /** Carrying between the halves loses nothing. */
  lemma Carries(l1: int, l0: int, h1: int, h0: int, c1: int, c0: int, loHi: int, hiHi: int)
    requires c1 * B + c0 == l1 + h0 + loHi
    ensures (h1 + c1 + hiHi) * TWO_TO_THE_64 + c0 * B + l0 == hiHi * TWO_TO_THE_64 + ((h1 * B + h0) + loHi) * B + (l1 * B + l0)
  {
  }

  lemma CombineExact(loLo: Word64, hiLo: Word64, loHi: Word64, hiHi: Word64)
    requires ProductOfHalves(loLo) && ProductOfHalves(hiLo) && ProductOfHalves(loHi) && ProductOfHalves(hiHi)
    ensures var p := Combine(loLo, hiLo, loHi, hiHi);
      p.high64 * TWO_TO_THE_64 + p.low64 == hiHi * TWO_TO_THE_64 + (hiLo + loHi) * B + loLo
  {
    hide Add64, Shl32;
    SumsFit(loLo, hiLo, loHi, hiHi);
    var l1, l0, h1, h0 := loLo / B, loLo % B, hiLo / B, hiLo % B;
    var cross := l1 + h0 + loHi;
    var c1, c0 := cross / B, cross % B;
    AddFits(l1, h0);
    AddFits(l1 + h0, loHi);
    AddFits(h1, c1);
    AddFits(h1 + c1, hiHi);
    ShiftedCross(cross);
    AddFits(c0 * B, l0);
    Carries(l1, l0, h1, h0, c1, c0, loHi, hiHi);
  }

  /** No intermediate sum overflows, and the two halves make up the exact product. */
  lemma Mult64To128Exact(lhs: Word64, rhs: Word64)
    ensures var loLo, hiLo, loHi, hiHi := lhs % B * (rhs % B), lhs / B * (rhs % B), lhs % B * (rhs / B), lhs / B * (rhs / B);
      var cross := loLo / B + hiLo % B + loHi;
      cross < TWO_TO_THE_64 && hiLo / B + cross / B + hiHi < TWO_TO_THE_64
    ensures var p := Mult64To128(lhs, rhs); p.high64 * TWO_TO_THE_64 + p.low64 == lhs * rhs
  {
    hide Combine;
    var a, b, c, d := lhs / B, lhs % B, rhs / B, rhs % B;
    HalvesBound(b, d);
    HalvesBound(a, d);
    HalvesBound(b, c);
    HalvesBound(a, c);
    Halves(a, b, c, d);
    SumsFit(b * d, a * d, b * c, a * c);
    CombineExact(b * d, a * d, b * c, a * c);
  }
}
