/** Texture sizing helpers shared by the atlas and font generators. */
module TexSize {
  import opened Bits

  predicate IsPow2(n: nat)
    decreases n
  {
    n == 1 || (n >= 2 && n % 2 == 0 && IsPow2(n / 2))
  }

  /** x | x>>1 | x>>2 | ... | x>>31, computed in the five steps the tools use. */
  function Smear(x: nat): nat
  {
    var a := Or(x, Shr(x, 1));
    var b := Or(a, Shr(a, 2));
    var c := Or(b, Shr(b, 4));
    var d := Or(c, Shr(c, 8));
    Or(d, Shr(d, 16))
  }

  /** next_power_of_2: v-1 with every bit below its top bit set, plus one.
      For v == 0 Python computes -1 | (-1 >> k) == -1 throughout, giving 0. */
  function NextPowerOf2(v: nat): nat
  {
    if v == 0 then 0 else Smear(v - 1) + 1
  }

  /** Some bit of x in [i, i+m) is set. */
  predicate AnyBit(x: nat, i: nat, m: nat)
    decreases m
  {
    m > 0 && (Bit(x, i) || AnyBit(x, i + 1, m - 1))
  }

  lemma {:induction false} AnyBitSplit(x: nat, i: nat, m: nat, n: nat)
    ensures AnyBit(x, i, m + n) == (AnyBit(x, i, m) || AnyBit(x, i + m, n))
    decreases m
  {
    if m > 0 {
      AnyBitSplit(x, i + 1, m - 1, n);
    }
  }

  lemma {:induction false} AnyBitRange(x: nat, k: nat, i: nat, m: nat)
    requires 1 <= k && Pow2(k - 1) <= x < Pow2(k) && k <= i + m
    ensures AnyBit(x, i, m) == (i < k)
    decreases m
  {
    if m > 0 {
      if i >= k { HighBitsClear(x, k, i); }
      if i == k - 1 { TopBitSet(x, k); }
      if i + 1 <= k - 1 || i >= k { AnyBitRange(x, k, i + 1, m - 1); }
    }
  }

  /** One smearing step doubles the window of bits or'ed into each position. */
  lemma {:induction false} SmearStep(x: nat, y: nat, m: nat)
    requires forall i: nat :: Bit(y, i) == AnyBit(x, i, m)
    ensures forall i: nat :: Bit(Or(y, Shr(y, m)), i) == AnyBit(x, i, 2 * m)
  {
    forall i: nat ensures Bit(Or(y, Shr(y, m)), i) == AnyBit(x, i, 2 * m) {
      OrBit(y, Shr(y, m), i);
      ShrBit(y, m, i);
      AnyBitSplit(x, i, m, m);
    }
  }

  lemma {:induction false} SmearBits(x: nat)
    ensures forall i: nat :: Bit(Smear(x), i) == AnyBit(x, i, 32)
  {
    forall i: nat ensures Bit(x, i) == AnyBit(x, i, 1) {}
    SmearStep(x, x, 1);
    var a := Or(x, Shr(x, 1));
    SmearStep(x, a, 2);
    var b := Or(a, Shr(a, 2));
    SmearStep(x, b, 4);
    var c := Or(b, Shr(b, 4));
    SmearStep(x, c, 8);
    var d := Or(c, Shr(c, 8));
    SmearStep(x, d, 16);
  }

  lemma {:induction false} Pow2Of32()
    ensures Pow2(32) == 0x1_0000_0000
  {
    assert Pow2(4) == 16;
    Pow2Add(4, 4);
    Pow2Add(8, 8);
    Pow2Add(16, 16);
  }

  lemma {:induction false} Pow2IsPow2(k: nat)
    ensures IsPow2(Pow2(k))
  {
    if k > 0 { Pow2IsPow2(k - 1); }
  }

  /** The exponent k with 2^(k-1) < v <= 2^k. */
  lemma {:induction false} CeilLog(v: nat) returns (k: nat)
    requires v >= 1
    ensures v <= Pow2(k) && (k == 0 || Pow2(k - 1) < v)
    ensures forall j: nat :: v <= Pow2(j) ==> k <= j
    decreases v
  {
    if v == 1 {
      k := 0;
    } else {
      var k' := CeilLog((v + 1) / 2);
      k := k' + 1;
      forall j: nat | v <= Pow2(j) ensures k <= j {
        if j == 0 {
        } else {
          assert (v + 1) / 2 <= Pow2(j - 1);
        }
      }
    }
  }

  /** next_power_of_2(v), for 1 <= v <= 2^32, is the smallest power of two
      that is at least v. */
  lemma {:induction false} NextPowerOf2Smallest(v: nat)
    requires 1 <= v <= 0x1_0000_0000
    ensures IsPow2(NextPowerOf2(v))
    ensures v <= NextPowerOf2(v) < 2 * v
  {
    var k := CeilLog(v);
    Pow2Of32();
    assert k <= 32;
    if k == 0 {
      SmearZero();
    } else {
      SmearBelow(v - 1, k);
    }
    assert NextPowerOf2(v) == Pow2(k);
    Pow2IsPow2(k);
  }

  lemma {:induction false} SmearZero()
    ensures Smear(0) == 0
  {
    forall i: nat ensures Bit(Smear(0), i) == Bit(0, i) {
      SmearBits(0);
      ZeroBit(i);
      AnyBitRangeZero(i, 32);
    }
    BitsExt(Smear(0), 0);
  }

  /** Smearing a number whose top bit is k-1 sets every bit below k. */
  lemma {:induction false} SmearBelow(x: nat, k: nat)
    requires 1 <= k <= 32 && Pow2(k - 1) <= x < Pow2(k)
    ensures Smear(x) == Pow2(k) - 1
  {
    forall i: nat ensures Bit(Smear(x), i) == Bit(Pow2(k) - 1, i) {
      SmearBits(x);
      AnyBitRange(x, k, i, 32);
      OnesBit(k, i);
    }
    BitsExt(Smear(x), Pow2(k) - 1);
  }

  lemma {:induction false} AnyBitRangeZero(i: nat, m: nat)
    ensures !AnyBit(0, i, m)
    decreases m
  {
    if m > 0 { ZeroBit(i); AnyBitRangeZero(i + 1, m - 1); }
  }

  /** make_new_wh: halve the height on even steps and the width on odd ones. */
  function MakeNewWH(w: int, h: int, i: nat): (int, int)
  {
    if i % 2 == 1 then (w / 2, h) else (w, h / 2)
  }

  /** int(math.sqrt(n)) for a non-negative integer n, taken as the floor of
      the exact square root. */
  function ISqrt(n: nat): (r: nat)
    ensures r * r <= n < (r + 1) * (r + 1)
  {
    if n == 0 then 0
    else
      var r := ISqrt(n - 1);
      if (r + 1) * (r + 1) <= n then r + 1 else r
  }

  /** The size after n shrink steps from (w, h). */
  function Halvings(w: int, h: int, n: nat): (int, int)
  {
    if n == 0 then (w, h)
    else
      var (a, b) := Halvings(w, h, n - 1);
      MakeNewWH(a, b, n - 1)
  }

  /** s halved a times, rounding down. */
  function HalveN(s: int, a: nat): int
  {
    if a == 0 then s else HalveN(s, a - 1) / 2
  }

  /** After n shrink steps from (s, s) the width has been halved n/2 times
      and the height (n+1)/2 times: the height goes first. */
  lemma {:induction false} HalvingsClosedForm(s: int, n: nat)
    ensures Halvings(s, s, n) == (HalveN(s, n / 2), HalveN(s, (n + 1) / 2))
  {
    if n > 0 {
      HalvingsClosedForm(s, n - 1);
    }
  }

  /** Halving a non-negative s a times, a <= s, takes off at least a. */
  lemma {:induction false} HalveNBound(s: int, a: nat)
    requires 0 <= s && a <= s
    ensures 0 <= HalveN(s, a) <= s - a
  {
    if a > 0 {
      HalveNBound(s, a - 1);
    }
  }

  /** From a non-negative (s, s), 2s shrink steps reach (0, 0). */
  lemma {:induction false} HalvingsReachZero(s: int)
    requires 0 <= s
    ensures Halvings(s, s, 2 * s) == (0, 0)
  {
    HalvingsClosedForm(s, 2 * s);
    assert (2 * s + 1) / 2 == s;
    HalveNBound(s, s);
  }

  /** Once the shrink steps reach (0, 0) they stay there. */
  lemma {:induction false} HalvingsStayZero(w: int, h: int, n: nat, m: nat)
    requires n <= m && Halvings(w, h, n) == (0, 0)
    ensures Halvings(w, h, m) == (0, 0)
    decreases m - n
  {
    if n < m {
      HalvingsStayZero(w, h, n + 1, m);
    }
  }

  /** Halving 2^k a times, a <= k, leaves the power of two 2^(k-a); so every
      size the shrink path visits, from a power-of-two guess, is a power of two. */
  lemma {:induction false} HalveNPow2(k: nat, a: nat)
    requires a <= k
    ensures HalveN(Pow2(k), a) == Pow2(k - a)
  {
    if a > 0 {
      HalveNPow2(k, a - 1);
    }
  }

}
