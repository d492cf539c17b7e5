/** The bucket chains of HashMap<K, V>: a chain is a root bucket and its
    overflow buckets, BUCKET_SIZE slots each, seen here as one sequence of
    slots in the order the lookup visits them. A slot whose top-hash byte is
    0 is empty; a full slot holds that byte (never 0), a key and a value. */
module HashChains {
  import opened Wrappers
  import opened Arith
  import Bits

  const BUCKET_SIZE := 8

  datatype Slot<K, V> = Empty | Full(top: int, key: K, value: V)

  /** compute_hash returns a signed int; the table works on its 32-bit
      two's-complement pattern, which Euclidean % recovers. */
  function Pattern(h: int): (r: int)
    ensures 0 <= r < 0x1_0000_0000
    ensures -0x8000_0000 <= h < 0 ==> r == h + 0x1_0000_0000
    ensures 0 <= h < 0x1_0000_0000 ==> r == h
  {
    h % 0x1_0000_0000
  }

  /** The top-hash byte: the hash's highest byte, with 0 (the empty mark)
      bumped to 1. */
  function TopOf(h: int): (r: int)
    ensures 1 <= r < 256
    ensures Pattern(h) >= 0x100_0000 ==> r == Pattern(h) / 0x100_0000
  {
    var t := Pattern(h) / 0x100_0000;
    if t == 0 then 1 else t
  }

  /** hash & ((1 << b) - 1): the bucket of a hash among 2^b. */
  function IndexOf(h: int, b: nat): (r: int)
    ensures 0 <= r < Bits.Pow2(b)
  {
    Pattern(h) % Bits.Pow2(b)
  }

  /** hash & (1 << b), as 0 or 1. */
  function Bit(h: int, b: nat): (r: int)
    ensures r == 0 || r == 1
  {
    (Pattern(h) / Bits.Pow2(b)) % 2
  }

  /** Doubling the table sends a hash of bucket i to bucket i or to bucket
      i + 2^b, as its bit b says. */
  lemma IndexSplit(h: int, b: nat)
    ensures IndexOf(h, b + 1) == IndexOf(h, b) + Bit(h, b) * Bits.Pow2(b)
  {
    var u, p := Pattern(h), Bits.Pow2(b);
    var q, r := u / p, u % p;
    var q2, bit := q / 2, q % 2;
    assert u == p * q + r;
    assert q == 2 * q2 + bit;
    assert u == (2 * p) * q2 + (bit * p + r) by {
      assert p * q == p * (2 * q2) + p * bit;
    }
    assert 0 <= bit * p + r < 2 * p;
    DivModUnique(u, 2 * p, q2, bit * p + r);
  }

  function Empties<K, V>(n: nat): (r: seq<Slot<K, V>>)
    ensures |r| == n && forall j :: 0 <= j < n ==> r[j] == Empty
  {
    if n == 0 then [] else Empties(n - 1) + [Empty]
  }

  // ---------------------------------------------------------------------
  // What a chain holds.

  /** The keys and values held by the full slots. */
  ghost function ChainMap<K, V>(c: seq<Slot<K, V>>): map<K, V>
  {
    if c == [] then map[]
    else match c[|c| - 1]
      case Empty => ChainMap(c[..|c| - 1])
      case Full(_, k, v) => ChainMap(c[..|c| - 1])[k := v]
  }

  /** No key is held twice. */
  ghost predicate Unique<K, V>(c: seq<Slot<K, V>>)
  {
    c == [] || (Unique(c[..|c| - 1]) && (c[|c| - 1].Full? ==> c[|c| - 1].key !in ChainMap(c[..|c| - 1])))
  }

  /** The number of full slots. */
  function FullCount<K, V>(c: seq<Slot<K, V>>): nat
  {
    if c == [] then 0 else FullCount(c[..|c| - 1]) + (if c[|c| - 1].Full? then 1 else 0)
  }

  /** A key is held exactly when some full slot holds it. */
  lemma {:induction false} ChainMapKeys<K, V>(c: seq<Slot<K, V>>, k: K)
    ensures k in ChainMap(c) <==> exists j :: 0 <= j < |c| && c[j].Full? && c[j].key == k
  {
    if c != [] {
      var init := c[..|c| - 1];
      ChainMapKeys(init, k);
      if exists j :: 0 <= j < |init| && init[j].Full? && init[j].key == k {
        var j :| 0 <= j < |init| && init[j].Full? && init[j].key == k;
        assert c[j] == init[j];
      }
      if exists j :: 0 <= j < |c| && c[j].Full? && c[j].key == k {
        var j :| 0 <= j < |c| && c[j].Full? && c[j].key == k;
        if j < |init| {
          assert init[j] == c[j];
        }
      }
    }
  }

  /** With no key held twice, each full slot's value is the one held for
      its key. */
  lemma {:induction false} ChainMapAt<K, V>(c: seq<Slot<K, V>>, j: int)
    requires Unique(c) && 0 <= j < |c| && c[j].Full?
    ensures c[j].key in ChainMap(c) && ChainMap(c)[c[j].key] == c[j].value
  {
    var init := c[..|c| - 1];
    if j < |c| - 1 {
      assert init[j] == c[j];
      ChainMapAt(init, j);
    }
  }

  /** A chain with no full slot holds nothing. */
  lemma {:induction false} NoneFull<K, V>(c: seq<Slot<K, V>>)
    requires FullCount(c) == 0
    ensures ChainMap(c) == map[]
  {
    if c != [] {
      NoneFull(c[..|c| - 1]);
    }
  }

  /** Empty slots added at the end hold nothing. */
  lemma {:induction false} PadEmpties<K, V>(c: seq<Slot<K, V>>, n: nat)
    requires Unique(c)
    ensures var d := c + Empties(n);
      Unique(d) && ChainMap(d) == ChainMap(c) && FullCount(d) == FullCount(c)
  {
    if n > 0 {
      PadEmpties(c, n - 1);
      assert (c + Empties(n))[..|c| + n - 1] == c + Empties(n - 1);
    } else {
      assert c + Empties(n) == c;
    }
  }

  /** A prefix of a chain without repeats has none either. */
  lemma {:induction false} UniquePrefix<K, V>(c: seq<Slot<K, V>>, n: int)
    requires Unique(c) && 0 <= n <= |c|
    ensures Unique(c[..n])
    decreases |c|
  {
    if n < |c| {
      assert c[..|c| - 1][..n] == c[..n];
      UniquePrefix(c[..|c| - 1], n);
    } else {
      assert c[..n] == c;
    }
  }

  /** Storing key k with value v at slot j, which is empty while k is not
      held, or already holds k. */
  lemma {:induction false} Put<K, V>(c: seq<Slot<K, V>>, j: int, t: int, k: K, v: V)
    requires Unique(c) && 0 <= j < |c|
    requires (c[j].Empty? && k !in ChainMap(c)) || (c[j].Full? && c[j].key == k)
    ensures var d := c[j := Full(t, k, v)];
      Unique(d) && ChainMap(d) == ChainMap(c)[k := v] &&
      FullCount(d) == FullCount(c) + (if c[j].Empty? then 1 else 0)
    decreases |c|
  {
    var d := c[j := Full(t, k, v)];
    var init := c[..|c| - 1];
    var last := c[|c| - 1];
    if j == |c| - 1 {
      assert d[..|d| - 1] == init;
      if last.Full? {
        assert ChainMap(c) == ChainMap(init)[k := last.value];
      }
    } else {
      assert d[..|d| - 1] == init[j := Full(t, k, v)];
      assert init[j] == c[j];
      if c[j].Full? {
        ChainMapAt(init, j);
      }
      Put(init, j, t, k, v);
    }
  }

  /** Emptying full slot j drops its key. */
  lemma {:induction false} Erase<K, V>(c: seq<Slot<K, V>>, j: int)
    requires Unique(c) && 0 <= j < |c| && c[j].Full?
    ensures var d := c[j := Empty];
      Unique(d) && ChainMap(d) == ChainMap(c) - {c[j].key} && FullCount(d) == FullCount(c) - 1
    decreases |c|
  {
    var d := c[j := Empty];
    var init := c[..|c| - 1];
    var last := c[|c| - 1];
    if j == |c| - 1 {
      assert d[..|d| - 1] == init;
      assert ChainMap(init) == ChainMap(init) - {last.key};
    } else {
      assert d[..|d| - 1] == init[j := Empty];
      assert init[j] == c[j];
      ChainMapAt(init, j);
      Erase(init, j);
    }
  }

  // ---------------------------------------------------------------------
  // Chains in a table of 2^b buckets.

  /** A chain as bucket i of 2^b holds it: whole buckets, at least the root,
      keys held once, and each full slot tagged with its key's top-hash byte
      and placed in its key's bucket. */
  ghost predicate ChainOK<K, V>(c: seq<Slot<K, V>>, i: int, b: nat, hash: K -> int)
  {
    |c| >= BUCKET_SIZE && |c| % BUCKET_SIZE == 0 && Unique(c) &&
    forall j :: 0 <= j < |c| && c[j].Full? ==>
      c[j].top == TopOf(hash(c[j].key)) && IndexOf(hash(c[j].key), b) == i
  }

  /** The part of a map whose keys have bit b of their hash equal to bit. */
  ghost function Part<K, V>(m: map<K, V>, hash: K -> int, b: nat, bit: int): map<K, V>
  {
    map k | k in m && Bit(hash(k), b) == bit :: m[k]
  }

  lemma PartUpdate<K, V>(m: map<K, V>, hash: K -> int, b: nat, bit: int, k: K, v: V)
    ensures Part(m[k := v], hash, b, bit) ==
      if Bit(hash(k), b) == bit then Part(m, hash, b, bit)[k := v] else Part(m, hash, b, bit)
  {
  }

  /** The number of full slots in a table. */
  function Total<K, V>(bs: seq<seq<Slot<K, V>>>): nat
  {
    if bs == [] then 0 else Total(bs[..|bs| - 1]) + FullCount(bs[|bs| - 1])
  }

  lemma {:induction false} TotalUpdate<K, V>(bs: seq<seq<Slot<K, V>>>, i: int, c: seq<Slot<K, V>>)
    requires 0 <= i < |bs|
    ensures Total(bs[i := c]) == Total(bs) - FullCount(bs[i]) + FullCount(c)
  {
    var init := bs[..|bs| - 1];
    if i < |bs| - 1 {
      assert bs[i := c][..|bs| - 1] == init[i := c];
      assert init[i] == bs[i];
      TotalUpdate(init, i, c);
    } else {
      assert bs[i := c][..|bs| - 1] == init;
    }
  }

  lemma {:induction false} TotalZero<K, V>(bs: seq<seq<Slot<K, V>>>, i: int)
    requires Total(bs) == 0 && 0 <= i < |bs|
    ensures FullCount(bs[i]) == 0
  {
    if i < |bs| - 1 {
      assert bs[..|bs| - 1][i] == bs[i];
      TotalZero(bs[..|bs| - 1], i);
    }
  }

  lemma {:induction false} TotalAppend<K, V>(a: seq<seq<Slot<K, V>>>, b: seq<seq<Slot<K, V>>>)
    ensures Total(a + b) == Total(a) + Total(b)
    decreases |b|
  {
    if b == [] {
      assert a + b == a;
    } else {
      assert (a + b)[..|a + b| - 1] == a + b[..|b| - 1];
      TotalAppend(a, b[..|b| - 1]);
    }
  }

  /** A freshly cleared bucket holds nothing. */
  lemma EmptyChain<K, V>()
    ensures var e: seq<Slot<K, V>> := Empties(BUCKET_SIZE);
      Unique(e) && ChainMap(e) == map[] && FullCount(e) == 0
  {
    var e: seq<Slot<K, V>> := [];
    PadEmpties(e, BUCKET_SIZE);
    assert e + Empties(BUCKET_SIZE) == Empties(BUCKET_SIZE);
  }

  lemma {:induction false} TotalOfEmpty<K, V>(bs: seq<seq<Slot<K, V>>>)
    requires forall i :: 0 <= i < |bs| ==> FullCount(bs[i]) == 0
    ensures Total(bs) == 0
  {
    if bs != [] {
      var init := bs[..|bs| - 1];
      assert forall i :: 0 <= i < |init| ==> init[i] == bs[i];
      TotalOfEmpty(init);
    }
  }

  /** If no full slot with k's top-hash byte holds k, k is not held. */
  lemma NotHeld<K, V>(c: seq<Slot<K, V>>, i: int, b: nat, hash: K -> int, k: K)
    requires ChainOK(c, i, b, hash)
    requires forall j :: 0 <= j < |c| && c[j].Full? && c[j].top == TopOf(hash(k)) ==> c[j].key != k
    ensures k !in ChainMap(c)
  {
    ChainMapKeys(c, k);
  }

  lemma PutOK<K, V>(c: seq<Slot<K, V>>, i: int, b: nat, hash: K -> int, j: int, k: K, v: V)
    requires ChainOK(c, i, b, hash) && 0 <= j < |c| && IndexOf(hash(k), b) == i
    requires (c[j].Empty? && k !in ChainMap(c)) || (c[j].Full? && c[j].key == k)
    ensures var d := c[j := Full(TopOf(hash(k)), k, v)];
      ChainOK(d, i, b, hash) && ChainMap(d) == ChainMap(c)[k := v] &&
      FullCount(d) == FullCount(c) + (if c[j].Empty? then 1 else 0)
  {
    Put(c, j, TopOf(hash(k)), k, v);
  }

  lemma EraseOK<K, V>(c: seq<Slot<K, V>>, i: int, b: nat, hash: K -> int, j: int)
    requires ChainOK(c, i, b, hash) && 0 <= j < |c| && c[j].Full?
    ensures var d := c[j := Empty];
      ChainOK(d, i, b, hash) && ChainMap(d) == ChainMap(c) - {c[j].key} &&
      FullCount(d) == FullCount(c) - 1
  {
    Erase(c, j);
  }

  /** An overflow bucket linked at the end of a chain. */
  lemma ExtendOK<K, V>(c: seq<Slot<K, V>>, i: int, b: nat, hash: K -> int)
    requires ChainOK(c, i, b, hash)
    ensures var d := c + Empties(BUCKET_SIZE);
      ChainOK(d, i, b, hash) && ChainMap(d) == ChainMap(c) && FullCount(d) == FullCount(c)
  {
    PadEmpties(c, BUCKET_SIZE);
  }

  // ---------------------------------------------------------------------
  // A table of 2^b chains.

  ghost predicate TableOK<K, V>(bs: seq<seq<Slot<K, V>>>, b: nat, hash: K -> int)
  {
    |bs| == Bits.Pow2(b) && forall i :: 0 <= i < |bs| ==> ChainOK(bs[i], i, b, hash)
  }

  /** What a lookup of k finds: the value its key's bucket holds for it. */
  ghost function TableValue<K, V>(bs: seq<seq<Slot<K, V>>>, hash: K -> int, b: nat, k: K): Option<V>
    requires |bs| == Bits.Pow2(b)
  {
    var m := ChainMap(bs[IndexOf(hash(k), b)]);
    if k in m then Some(m[k]) else None
  }

  /** Replacing the chain of key's bucket by one that holds key with value
      v, and otherwise the same, changes only what key finds. */
  lemma TableAfterPut<K, V>(bs: seq<seq<Slot<K, V>>>, hash: K -> int, b: nat, c: seq<Slot<K, V>>, key: K, v: V)
    requires |bs| == Bits.Pow2(b)
    requires ChainMap(c) == ChainMap(bs[IndexOf(hash(key), b)])[key := v]
    ensures var t := bs[IndexOf(hash(key), b) := c];
      TableValue(t, hash, b, key) == Some(v) &&
      forall k :: k != key ==> TableValue(t, hash, b, k) == TableValue(bs, hash, b, k)
  {
  }

  lemma TableAfterErase<K, V>(bs: seq<seq<Slot<K, V>>>, hash: K -> int, b: nat, c: seq<Slot<K, V>>, key: K)
    requires |bs| == Bits.Pow2(b)
    requires ChainMap(c) == ChainMap(bs[IndexOf(hash(key), b)]) - {key}
    ensures var t := bs[IndexOf(hash(key), b) := c];
      TableValue(t, hash, b, key) == None &&
      forall k :: k != key ==> TableValue(t, hash, b, k) == TableValue(bs, hash, b, k)
  {
  }

  lemma TableAfterSame<K, V>(bs: seq<seq<Slot<K, V>>>, hash: K -> int, b: nat, i: int, c: seq<Slot<K, V>>)
    requires |bs| == Bits.Pow2(b) && 0 <= i < |bs| && ChainMap(c) == ChainMap(bs[i])
    ensures forall k :: TableValue(bs[i := c], hash, b, k) == TableValue(bs, hash, b, k)
  {
  }

  /** Storing key with value v at slot j of c, its chain as it stands
      (perhaps with a new empty bucket linked): the slot is empty while key
      is not held, or already holds key. */
  lemma TableStore<K, V>(bs: seq<seq<Slot<K, V>>>, b: nat, hash: K -> int, c: seq<Slot<K, V>>, j: int, key: K, v: V)
    requires TableOK(bs, b, hash)
    requires ChainOK(c, IndexOf(hash(key), b), b, hash)
    requires ChainMap(c) == ChainMap(bs[IndexOf(hash(key), b)]) && FullCount(c) == FullCount(bs[IndexOf(hash(key), b)])
    requires 0 <= j < |c| && ((c[j].Empty? && key !in ChainMap(c)) || (c[j].Full? && c[j].key == key))
    ensures var t := bs[IndexOf(hash(key), b) := c[j := Full(TopOf(hash(key)), key, v)]];
      TableOK(t, b, hash) && Total(t) == Total(bs) + (if c[j].Empty? then 1 else 0) &&
      TableValue(t, hash, b, key) == Some(v) &&
      forall k :: k != key ==> TableValue(t, hash, b, k) == TableValue(bs, hash, b, k)
  {
    var i := IndexOf(hash(key), b);
    var d := c[j := Full(TopOf(hash(key)), key, v)];
    PutOK(c, i, b, hash, j, key, v);
    TotalUpdate(bs, i, d);
    TableAfterPut(bs, hash, b, d, key, v);
  }

  // ---------------------------------------------------------------------
  // Splitting the chains when the table doubles.

  /** x and y are chain i split on bit b: x stays bucket i and y becomes
      bucket i + 2^b of the doubled table, and between them they hold what
      chain i held. */
  ghost predicate SplitOf<K, V>(x: seq<Slot<K, V>>, y: seq<Slot<K, V>>, c: seq<Slot<K, V>>, i: int, b: nat, hash: K -> int)
  {
    ChainOK(x, i, b + 1, hash) && ChainOK(y, i + Bits.Pow2(b), b + 1, hash) &&
    ChainMap(x) == Part(ChainMap(c), hash, b, 0) && ChainMap(y) == Part(ChainMap(c), hash, b, 1) &&
    FullCount(x) + FullCount(y) == FullCount(c)
  }

  /** The first |lo| chains of bs have been split into lo and hi. */
  ghost predicate SplitUpTo<K, V>(lo: seq<seq<Slot<K, V>>>, hi: seq<seq<Slot<K, V>>>, bs: seq<seq<Slot<K, V>>>, b: nat, hash: K -> int)
  {
    |lo| == |hi| <= |bs| && Total(lo) + Total(hi) == Total(bs[..|lo|]) &&
    forall j :: 0 <= j < |lo| ==> SplitOf(lo[j], hi[j], bs[j], j, b, hash)
  }

  lemma SplitNext<K, V>(lo: seq<seq<Slot<K, V>>>, hi: seq<seq<Slot<K, V>>>, bs: seq<seq<Slot<K, V>>>, b: nat, hash: K -> int,
                        x: seq<Slot<K, V>>, y: seq<Slot<K, V>>)
    requires SplitUpTo(lo, hi, bs, b, hash) && |lo| < |bs| && SplitOf(x, y, bs[|lo|], |lo|, b, hash)
    ensures SplitUpTo(lo + [x], hi + [y], bs, b, hash)
  {
    TotalSnoc(lo, x);
    TotalSnoc(hi, y);
    TotalSnoc(bs[..|lo|], bs[|lo|]);
    assert bs[..|lo|] + [bs[|lo|]] == bs[..|lo| + 1];
    SplitsSnoc(lo, hi, bs, b, hash, x, y);
  }

  lemma TotalSnoc<K, V>(a: seq<seq<Slot<K, V>>>, c: seq<Slot<K, V>>)
    ensures Total(a + [c]) == Total(a) + FullCount(c)
  {
    assert (a + [c])[..|a|] == a;
  }

  lemma SplitsSnoc<K, V>(lo: seq<seq<Slot<K, V>>>, hi: seq<seq<Slot<K, V>>>, bs: seq<seq<Slot<K, V>>>, b: nat, hash: K -> int,
                         x: seq<Slot<K, V>>, y: seq<Slot<K, V>>)
    requires |lo| == |hi| < |bs| && SplitOf(x, y, bs[|lo|], |lo|, b, hash)
    requires forall j :: 0 <= j < |lo| ==> SplitOf(lo[j], hi[j], bs[j], j, b, hash)
    ensures forall j :: 0 <= j < |lo| + 1 ==> SplitOf((lo + [x])[j], (hi + [y])[j], bs[j], j, b, hash)
  {
    forall j | 0 <= j < |lo| + 1 ensures SplitOf((lo + [x])[j], (hi + [y])[j], bs[j], j, b, hash) {
      if j < |lo| {
        assert (lo + [x])[j] == lo[j] && (hi + [y])[j] == hi[j];
      } else {
        assert (lo + [x])[j] == x && (hi + [y])[j] == y;
      }
    }
  }

  /** The doubled table holds what the old one did, each key in its new
      bucket. */
  lemma GrowTable<K, V>(bs: seq<seq<Slot<K, V>>>, lo: seq<seq<Slot<K, V>>>, hi: seq<seq<Slot<K, V>>>, b: nat, hash: K -> int)
    requires |bs| == |lo| == |hi| == Bits.Pow2(b)
    requires forall j :: 0 <= j < Bits.Pow2(b) ==> SplitOf(lo[j], hi[j], bs[j], j, b, hash)
    ensures TableOK(lo + hi, b + 1, hash)
    ensures forall k :: TableValue(lo + hi, hash, b + 1, k) == TableValue(bs, hash, b, k)
  {
    var t := lo + hi;
    var p := Bits.Pow2(b);
    forall i | 0 <= i < |t| ensures ChainOK(t[i], i, b + 1, hash) {
      if i < p {
        assert t[i] == lo[i];
      } else {
        assert t[i] == hi[i - p];
        assert SplitOf(lo[i - p], hi[i - p], bs[i - p], i - p, b, hash);
      }
    }
    forall k ensures TableValue(t, hash, b + 1, k) == TableValue(bs, hash, b, k) {
      var i := IndexOf(hash(k), b);
      IndexSplit(hash(k), b);
      assert SplitOf(lo[i], hi[i], bs[i], i, b, hash);
      if Bit(hash(k), b) == 0 {
        assert t[IndexOf(hash(k), b + 1)] == lo[i];
      } else {
        assert t[IndexOf(hash(k), b + 1)] == hi[i];
      }
    }
  }

  /** The number of empty slots that pad n packed slots to the end of a
      bucket; a chain has at least one bucket. */
  function Pad(n: nat): (r: nat)
    ensures r <= BUCKET_SIZE && n + r >= BUCKET_SIZE && (n + r) % BUCKET_SIZE == 0
  {
    if n == 0 then BUCKET_SIZE else (BUCKET_SIZE - n % BUCKET_SIZE) % BUCKET_SIZE
  }

  /** The number of used slots in the last bucket of n packed slots. */
  function Used(n: nat): (r: int)
    ensures 0 <= r <= BUCKET_SIZE && r + Pad(n) == BUCKET_SIZE
  {
    if n == 0 then 0 else (n - 1) % BUCKET_SIZE + 1
  }

  /** The slots xs packed from the front of a chain of whole buckets. */
  function Layout<K, V>(xs: seq<Slot<K, V>>): (r: seq<Slot<K, V>>)
    ensures |r| >= BUCKET_SIZE && |r| % BUCKET_SIZE == 0 && |xs| <= |r| && r[..|xs|] == xs
    ensures forall n :: |xs| <= n < |r| ==> r[n] == Empty
  {
    xs + Empties(Pad(|xs|))
  }

  /** x is being filled as _split_bucket fills it: the slots taken so far,
      packed, then the empty rest of the last bucket, xi slots of which are
      used. */
  ghost predicate Filling<K, V>(x: seq<Slot<K, V>>, xs: seq<Slot<K, V>>, xi: int)
  {
    x == Layout(xs) && xi == Used(|xs|)
  }

  /** One more packed slot: a full last bucket means a new one with one
      slot used, otherwise one more slot of the last bucket is used. */
  lemma PadNext(n: nat)
    ensures Used(n) == BUCKET_SIZE ==> Pad(n) == 0 && Pad(n + 1) == BUCKET_SIZE - 1 && Used(n + 1) == 1
    ensures Used(n) < BUCKET_SIZE ==> Pad(n + 1) == Pad(n) - 1 && Used(n + 1) == Used(n) + 1
  {
  }

  /** Writing the next slot, after linking a new bucket when the last one is
      full. */
  lemma FillNext<K, V>(x: seq<Slot<K, V>>, xs: seq<Slot<K, V>>, xi: int, s: Slot<K, V>)
    requires Filling(x, xs, xi)
    ensures xi == BUCKET_SIZE ==>
      Filling((x + Empties(BUCKET_SIZE))[|x| := s], xs + [s], 1)
    ensures xi < BUCKET_SIZE ==>
      Filling(x[|x| - BUCKET_SIZE + xi := s], xs + [s], xi + 1)
  {
    PadNext(|xs|);
    if xi == BUCKET_SIZE {
      FillNewBucket(xs, s);
    } else {
      FillLastBucket(xs, Pad(|xs|), s);
    }
  }

  lemma FillNewBucket<K, V>(xs: seq<Slot<K, V>>, s: Slot<K, V>)
    ensures (xs + Empties(BUCKET_SIZE))[|xs| := s] == xs + [s] + Empties(BUCKET_SIZE - 1)
  {
    var x' := (xs + Empties(BUCKET_SIZE))[|xs| := s];
    assert forall n :: 0 <= n < |x'| ==> x'[n] == (xs + [s] + Empties(BUCKET_SIZE - 1))[n];
  }

  lemma FillLastBucket<K, V>(xs: seq<Slot<K, V>>, p: nat, s: Slot<K, V>)
    requires p > 0
    ensures (xs + Empties(p))[|xs| := s] == xs + [s] + Empties(p - 1)
  {
    var x' := (xs + Empties(p))[|xs| := s];
    assert forall n :: 0 <= n < |x'| ==> x'[n] == (xs + [s] + Empties(p - 1))[n];
  }

  /** The full slots of c whose hash has bit b equal to bit, in order:
      what _split_bucket copies to that side. */
  function Dealt<K, V>(c: seq<Slot<K, V>>, hash: K -> int, b: nat, bit: int): (r: seq<Slot<K, V>>)
    ensures |r| <= |c|
  {
    if c == [] then [] else Dealt(c[..|c| - 1], hash, b, bit) + Goes(c[|c| - 1], hash, b, bit)
  }

  /** The slot s as a side receives it: itself if it is full with the
      side's bit, nothing otherwise. */
  function Goes<K, V>(s: Slot<K, V>, hash: K -> int, b: nat, bit: int): (r: seq<Slot<K, V>>)
    ensures r == [] || (r == [s] && s.Full? && Bit(hash(s.key), b) == bit)
    ensures s.Full? && Bit(hash(s.key), b) == bit ==> r == [s]
  {
    if s.Full? && Bit(hash(s.key), b) == bit then [s] else []
  }

  /** Slot j joins the side its hash's bit b names. */
  lemma DealtStep<K, V>(c: seq<Slot<K, V>>, j: int, hash: K -> int, b: nat, bit: int)
    requires 0 <= j < |c|
    ensures Dealt(c[..j + 1], hash, b, bit) == Dealt(c[..j], hash, b, bit) + Goes(c[j], hash, b, bit)
  {
    assert c[..j + 1][..j] == c[..j];
  }

  /** Each side holds, without repeats, the part of the chain's map with
      its bit. */
  lemma {:induction false} DealtMap<K, V>(c: seq<Slot<K, V>>, hash: K -> int, b: nat, bit: int)
    requires Unique(c)
    ensures Unique(Dealt(c, hash, b, bit))
    ensures ChainMap(Dealt(c, hash, b, bit)) == Part(ChainMap(c), hash, b, bit)
  {
    if c != [] {
      var init := c[..|c| - 1];
      var s := c[|c| - 1];
      DealtMap(init, hash, b, bit);
      var di := Dealt(init, hash, b, bit);
      if s.Full? && Bit(hash(s.key), b) == bit {
        var d := di + [s];
        assert Dealt(c, hash, b, bit) == d;
        assert d[..|d| - 1] == di && d[|d| - 1] == s;
        assert s.key !in ChainMap(init);
        assert Unique(d);
        assert ChainMap(d) == ChainMap(di)[s.key := s.value];
        PartUpdate(ChainMap(init), hash, b, bit, s.key, s.value);
      } else {
        assert Dealt(c, hash, b, bit) == di;
        if s.Full? {
          PartUpdate(ChainMap(init), hash, b, bit, s.key, s.value);
        }
      }
    }
  }

  /** Every slot of a side is full, tagged, and belongs to that side's
      bucket of the doubled table. */
  lemma {:induction false} DealtTags<K, V>(c: seq<Slot<K, V>>, i: int, b: nat, hash: K -> int, bit: int)
    requires forall j :: 0 <= j < |c| && c[j].Full? ==>
      c[j].top == TopOf(hash(c[j].key)) && IndexOf(hash(c[j].key), b) == i
    ensures forall n :: 0 <= n < |Dealt(c, hash, b, bit)| ==>
      var s := Dealt(c, hash, b, bit)[n];
      s.Full? && s.top == TopOf(hash(s.key)) && IndexOf(hash(s.key), b + 1) == i + bit * Bits.Pow2(b)
  {
    if c != [] {
      var init := c[..|c| - 1];
      var s := c[|c| - 1];
      forall j | 0 <= j < |init| && init[j].Full?
        ensures init[j].top == TopOf(hash(init[j].key)) && IndexOf(hash(init[j].key), b) == i
      {
        assert init[j] == c[j];
      }
      DealtTags(init, i, b, hash, bit);
      if s.Full? && Bit(hash(s.key), b) == bit {
        IndexSplit(hash(s.key), b);
      }
    }
  }

  /** Every full slot goes to exactly one side. */
  lemma {:induction false} DealtCount<K, V>(c: seq<Slot<K, V>>, hash: K -> int, b: nat)
    ensures |Dealt(c, hash, b, 0)| + |Dealt(c, hash, b, 1)| == FullCount(c)
  {
    if c != [] {
      DealtCount(c[..|c| - 1], hash, b);
    }
  }

  /** At the end of the chain the side holds its part of the chain. */
  lemma TakeDone<K, V>(c: seq<Slot<K, V>>, i: int, b: nat, hash: K -> int, x: seq<Slot<K, V>>, xs: seq<Slot<K, V>>, xi: int, bit: int)
    requires ChainOK(c, i, b, hash) && xs == Dealt(c, hash, b, bit) && Filling(x, xs, xi)
    ensures ChainOK(x, i + bit * Bits.Pow2(b), b + 1, hash)
    ensures ChainMap(x) == Part(ChainMap(c), hash, b, bit)
    ensures FullCount(x) == |xs|
  {
    DealtMap(c, hash, b, bit);
    DealtTags(c, i, b, hash, bit);
    PaddedChain(x, xs, xi);
    AllFull(xs);
    PaddedSlots(x, xs, xi, b + 1, i + bit * Bits.Pow2(b), hash);
  }

  /** The empty rest of the last bucket adds nothing. */
  lemma PaddedChain<K, V>(x: seq<Slot<K, V>>, xs: seq<Slot<K, V>>, xi: int)
    requires Filling(x, xs, xi) && Unique(xs)
    ensures Unique(x) && ChainMap(x) == ChainMap(xs) && FullCount(x) == FullCount(xs)
  {
    PadEmpties(xs, BUCKET_SIZE - xi);
  }

  /** The state of _split_bucket after j slots of chain c. */
  ghost predicate Dealing<K, V>(c: seq<Slot<K, V>>, j: int, hash: K -> int, b: nat,
                                x: seq<Slot<K, V>>, xs: seq<Slot<K, V>>, xi: int,
                                y: seq<Slot<K, V>>, ys: seq<Slot<K, V>>, yi: int)
  {
    0 <= j <= |c| && Filling(x, xs, xi) && Filling(y, ys, yi) &&
    xs == Dealt(c[..j], hash, b, 0) && ys == Dealt(c[..j], hash, b, 1)
  }

  lemma DealStart<K, V>(c: seq<Slot<K, V>>, hash: K -> int, b: nat)
    ensures Dealing(c, 0, hash, b, Empties(BUCKET_SIZE), [], 0, Empties(BUCKET_SIZE), [], 0)
  {
    assert c[..0] == [];
    assert [] + Empties<K, V>(BUCKET_SIZE - 0) == Empties(BUCKET_SIZE);
  }

  /** After the whole chain, x and y are its two halves. */
  lemma DealDone<K, V>(c: seq<Slot<K, V>>, i: int, b: nat, hash: K -> int,
                       x: seq<Slot<K, V>>, xs: seq<Slot<K, V>>, xi: int,
                       y: seq<Slot<K, V>>, ys: seq<Slot<K, V>>, yi: int)
    requires ChainOK(c, i, b, hash) && Dealing(c, |c|, hash, b, x, xs, xi, y, ys, yi)
    ensures SplitOf(x, y, c, i, b, hash)
  {
    assert c[..|c|] == c;
    TakeDone(c, i, b, hash, x, xs, xi, 0);
    TakeDone(c, i, b, hash, y, ys, yi, 1);
    DealtCount(c, hash, b);
  }

  lemma PaddedSlots<K, V>(x: seq<Slot<K, V>>, xs: seq<Slot<K, V>>, xi: int, b: nat, i: int, hash: K -> int)
    requires Filling(x, xs, xi)
    requires forall n :: 0 <= n < |xs| ==>
      xs[n].Full? && xs[n].top == TopOf(hash(xs[n].key)) && IndexOf(hash(xs[n].key), b) == i
    ensures forall n :: 0 <= n < |x| && x[n].Full? ==>
      x[n].top == TopOf(hash(x[n].key)) && IndexOf(hash(x[n].key), b) == i
  {
    forall n | 0 <= n < |x| && x[n].Full?
      ensures x[n].top == TopOf(hash(x[n].key)) && IndexOf(hash(x[n].key), b) == i
    {
      assert n < |xs| && x[n] == xs[n];
    }
  }

  lemma {:induction false} AllFull<K, V>(xs: seq<Slot<K, V>>)
    requires forall n :: 0 <= n < |xs| ==> xs[n].Full?
    ensures FullCount(xs) == |xs|
  {
    if xs != [] {
      var init := xs[..|xs| - 1];
      assert forall n :: 0 <= n < |init| ==> init[n] == xs[n];
      AllFull(init);
    }
  }
}
