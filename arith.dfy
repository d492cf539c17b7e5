/** Integer division facts shared by the modules that take numbers apart. */
module Arith {
  lemma MulAtLeast(d: int, x: int)
    requires d > 0 && x >= 1
    ensures d * x >= d
  {
  }

  /** The quotient and remainder of u by d are the only pair with
      u == d * q + r and 0 <= r < d. */
  lemma DivModUnique(u: int, d: int, q: int, r: int)
    requires d > 0 && u == d * q + r && 0 <= r < d
    ensures u / d == q && u % d == r
  {
    var q', r' := u / d, u % d;
    assert u == d * q' + r';
    if q' < q {
      MulAtLeast(d, q - q');
    } else if q' > q {
      MulAtLeast(d, q' - q);
    }
  }

  /** A value below d * m has a quotient by d below m. */
  lemma DivBelow(a: int, d: int, m: int)
    requires d > 0 && 0 <= a < d * m
    ensures 0 <= a / d < m
  {
    var q := a / d;
    assert d * q <= a;
    assert d * q < d * m;
  }
}
