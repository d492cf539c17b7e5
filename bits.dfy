/** Natural numbers viewed as bit strings: powers of two, single bits,
    logical right shift and bitwise or, as Python computes them on
    non-negative integers. */
module Bits {
  function Pow2(k: nat): (r: nat)
    ensures r >= 1
  {
    if k == 0 then 1 else 2 * Pow2(k - 1)
  }

  lemma {:induction false} Pow2Add(a: nat, b: nat)
    ensures Pow2(a) * Pow2(b) == Pow2(a + b)
  {
    if a > 0 {
      Pow2Add(a - 1, b);
      assert Pow2(a) * Pow2(b) == 2 * (Pow2(a - 1) * Pow2(b));
    }
  }

  /** Bit i of x (bit 0 is the least significant). */
  predicate Bit(x: nat, i: nat)
  {
    if i == 0 then x % 2 == 1 else Bit(x / 2, i - 1)
  }

  /** x >> s */
  function Shr(x: nat, s: nat): nat
  {
    if s == 0 then x else Shr(x / 2, s - 1)
  }

  /** x | y */
  function Or(x: nat, y: nat): nat
    decreases x + y
  {
    if x == 0 && y == 0 then 0
    else 2 * Or(x / 2, y / 2) + (if x % 2 == 1 || y % 2 == 1 then 1 else 0)
  }

  lemma {:induction false} ShrBit(x: nat, s: nat, i: nat)
    ensures Bit(Shr(x, s), i) == Bit(x, i + s)
    decreases s
  {
    if s > 0 {
      ShrBit(x / 2, s - 1, i);
      assert Bit(x, i + s) == Bit(x / 2, i + s - 1);
    }
  }

  lemma {:induction false} OrBit(x: nat, y: nat, i: nat)
    ensures Bit(Or(x, y), i) == (Bit(x, i) || Bit(y, i))
    decreases i
  {
    if x == 0 && y == 0 {
      ZeroBit(i);
    } else {
      var o := Or(x / 2, y / 2);
      var b := if x % 2 == 1 || y % 2 == 1 then 1 else 0;
      assert Or(x, y) == 2 * o + b;
      Halve(o, b);
      if i > 0 {
        OrBit(x / 2, y / 2, i - 1);
      }
    }
  }

  lemma {:induction false} Halve(o: nat, b: nat)
    requires b <= 1
    ensures (2 * o + b) / 2 == o && (2 * o + b) % 2 == b
  {
  }

  lemma {:induction false} ZeroBit(i: nat)
    ensures !Bit(0, i)
  {
    if i > 0 { ZeroBit(i - 1); }
  }

  /** Two naturals with the same bits are equal. */
  lemma {:induction false} BitsExt(x: nat, y: nat)
    requires forall i: nat :: Bit(x, i) == Bit(y, i)
    ensures x == y
    decreases x + y
  {
    if x != 0 || y != 0 {
      assert Bit(x, 0) == Bit(y, 0);
      forall i: nat ensures Bit(x / 2, i) == Bit(y / 2, i) {
        assert Bit(x, i + 1) == Bit(y, i + 1);
      }
      BitsExt(x / 2, y / 2);
    }
  }

  /** A number below 2^k has no bit at or above k. */
  lemma {:induction false} HighBitsClear(x: nat, k: nat, i: nat)
    requires x < Pow2(k) && i >= k
    ensures !Bit(x, i)
    decreases k
  {
    if k == 0 {
      ZeroBit(i);
    } else if i > 0 {
      HighBitsClear(x / 2, k - 1, i - 1);
    }
  }

  /** A number in [2^(k-1), 2^k) has bit k-1 set. */
  lemma {:induction false} TopBitSet(x: nat, k: nat)
    requires 1 <= k && Pow2(k - 1) <= x < Pow2(k)
    ensures Bit(x, k - 1)
    decreases k
  {
    if k > 1 {
      TopBitSet(x / 2, k - 1);
    }
  }

  /** 2^k - 1 has exactly the bits below k. */
  lemma {:induction false} OnesBit(k: nat, i: nat)
    ensures Bit(Pow2(k) - 1, i) == (i < k)
    decreases k
  {
    if k == 0 {
      ZeroBit(i);
    } else if i > 0 {
      OnesBit(k - 1, i - 1);
      assert (Pow2(k) - 1) / 2 == Pow2(k - 1) - 1;
    }
  }
}
