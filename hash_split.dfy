/** HashMap::_split_bucket and the loop of HashMap::_grow, on chain and
    table values: each chain of the old table is dealt out to its two
    successors in the doubled one. */
module HashSplits {
  import opened HashChains

  /** HashMap::_split_bucket: deal the slots of chain c, bucket i of 2^b,
      to bucket i (bit b of the hash clear) and bucket i + 2^b (bit b
      set) of the doubled table, packing each side and linking a new
      bucket whenever the last one is full. */
  method SplitChain<K, V>(c: seq<Slot<K, V>>, i: int, b: nat, hash: K -> int)
    returns (x: seq<Slot<K, V>>, y: seq<Slot<K, V>>)
    requires ChainOK(c, i, b, hash)
    ensures SplitOf(x, y, c, i, b, hash)
  {
    x, y := Empties(BUCKET_SIZE), Empties(BUCKET_SIZE);
    var xi, yi := 0, 0;
    ghost var xs: seq<Slot<K, V>>, ys: seq<Slot<K, V>> := [], [];
    DealStart(c, hash, b);
    var j := 0;
    while j < |c|
      invariant Dealing(c, j, hash, b, x, xs, xi, y, ys, yi)
    {
      x, xs, xi, y, ys, yi := Deal(c, j, hash, b, x, xs, xi, y, ys, yi);
      j := j + 1;
    }
    DealDone(c, i, b, hash, x, xs, xi, y, ys, yi);
  }

  /** One turn of _split_bucket's loop: slot j goes to the side its hash's
      bit b names, or nowhere when it is empty. */
  method Deal<K, V>(c: seq<Slot<K, V>>, j: int, hash: K -> int, b: nat,
                    x: seq<Slot<K, V>>, ghost xs: seq<Slot<K, V>>, xi: int,
                    y: seq<Slot<K, V>>, ghost ys: seq<Slot<K, V>>, yi: int)
    returns (x': seq<Slot<K, V>>, ghost xs': seq<Slot<K, V>>, xi': int,
             y': seq<Slot<K, V>>, ghost ys': seq<Slot<K, V>>, yi': int)
    requires j < |c| && Dealing(c, j, hash, b, x, xs, xi, y, ys, yi)
    ensures Dealing(c, j + 1, hash, b, x', xs', xi', y', ys', yi')
  {
    DealtStep(c, j, hash, b, 0);
    DealtStep(c, j, hash, b, 1);
    x', xs', xi', y', ys', yi' := x, xs, xi, y, ys, yi;
    if c[j].Full? {
      if Bit(hash(c[j].key), b) == 0 {
        x', xi' := Place(x, xs, xi, c[j]);
        xs' := xs + [c[j]];
      } else {
        y', yi' := Place(y, ys, yi, c[j]);
        ys' := ys + [c[j]];
      }
    }
  }

  /** One slot of _split_bucket's output: link a new empty bucket when
      the last one is full, then write the slot after the used ones. */
  method Place<K, V>(x: seq<Slot<K, V>>, ghost xs: seq<Slot<K, V>>, xi: int, s: Slot<K, V>)
    returns (x': seq<Slot<K, V>>, xi': int)
    requires Filling(x, xs, xi)
    ensures Filling(x', xs + [s], xi')
  {
    FillNext(x, xs, xi, s);
    x', xi' := x, xi;
    if xi' == BUCKET_SIZE {
      x' := x' + Empties(BUCKET_SIZE);
      xi' := 0;
    }
    x' := x'[|x'| - BUCKET_SIZE + xi' := s];
    xi' := xi' + 1;
  }

  /** The loop of _grow: split each of the 2^b chains in turn. */
  method SplitAll<K, V>(bs: seq<seq<Slot<K, V>>>, b: nat, hash: K -> int)
    returns (lo: seq<seq<Slot<K, V>>>, hi: seq<seq<Slot<K, V>>>)
    requires TableOK(bs, b, hash)
    ensures |lo| == |bs| && SplitUpTo(lo, hi, bs, b, hash)
  {
    lo, hi := [], [];
    var i := 0;
    while i < |bs|
      invariant 0 <= i <= |bs| && |lo| == i
      invariant SplitUpTo(lo, hi, bs, b, hash)
    {
      var x, y := SplitChain(bs[i], i, b, hash);
      SplitNext(lo, hi, bs, b, hash, x, y);
      lo, hi := lo + [x], hi + [y];
      i := i + 1;
    }
  }

  /** The table of 2^(b+1) chains _grow builds from bs. */
  method Doubled<K, V>(bs: seq<seq<Slot<K, V>>>, b: nat, hash: K -> int) returns (t: seq<seq<Slot<K, V>>>)
    requires TableOK(bs, b, hash)
    ensures TableOK(t, b + 1, hash) && Total(t) == Total(bs)
    ensures forall k :: TableValue(t, hash, b + 1, k) == TableValue(bs, hash, b, k)
  {
    var lo, hi := SplitAll(bs, b, hash);
    assert bs[..|bs|] == bs;
    GrowTable(bs, lo, hi, b, hash);
    TotalAppend(lo, hi);
    t := lo + hi;
  }
}
