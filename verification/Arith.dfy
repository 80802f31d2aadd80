/** Integer division facts shared by the index computations. */
module Arith {

  lemma SmallMultiple(e: int, d: int)
    requires d >= 1 && -d < e * d < d
    ensures e == 0
  {
  }

  lemma DivideUnique(n: int, d: int, q: int, r: int)
    requires d >= 1 && 0 <= r < d && n == q * d + r
    ensures n / d == q && n % d == r
  {
    var e := n / d - q;
    assert n == n / d * d + n % d;
    assert e * d == r - n % d by {
      assert e * d == n / d * d - q * d;
    }
    SmallMultiple(e, d);
  }
}
