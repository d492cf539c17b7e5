/** HashMap<K, V>: 2^B buckets, each the root of a chain of overflow
    buckets, a key going to the bucket its hash's low B bits name. The
    object keeps the count of held keys, B and the buckets; compute_hash is
    the `hash` the map is made with. */
module HashMaps {
  import opened Wrappers
  import opened HashChains
  import opened HashSplits

  class HashMap<K(==,!new), V> {
    const hash: K -> int
    var count: int
    var B: nat
    var buckets: seq<seq<Slot<K, V>>>

    /** No buckets until the first insert (unless a size hint asked for
        some), then 2^B well-formed chains; count is the number of full
        slots. */
    ghost predicate Valid()
      reads this
    {
      (buckets == [] ==> B == 0) && (buckets != [] ==> TableOK(buckets, B, hash)) &&
      count == Total(buckets)
    }

    /** What get(k) finds. */
    ghost function Value(k: K): Option<V>
      reads this
      requires Valid()
    {
      if buckets == [] then None else TableValue(buckets, hash, B, k)
    }

    /** HashMap(hint): the smallest B with room for hint keys at load 6.5,
        B staying 0 for a hint of at most BUCKET_SIZE; the buckets are
        allocated and cleared only when B > 0. */
    constructor (hint: int, hash: K -> int)
      ensures Valid() && this.hash == hash && count == 0
      ensures forall k :: Value(k) == None
      ensures hint > BUCKET_SIZE ==> 2 * hint <= 13 * Bits.Pow2(B)
      ensures B > 0 ==> hint > BUCKET_SIZE && 2 * hint > 13 * Bits.Pow2(B - 1)
      ensures B == 0 <==> buckets == []
    {
      this.hash := hash;
      count := 0;
      var b: nat := 0;
      while hint > BUCKET_SIZE && 2 * hint > 13 * Bits.Pow2(b)
        invariant b > 0 ==> hint > BUCKET_SIZE && 2 * hint > 13 * Bits.Pow2(b - 1)
        decreases 2 * hint - 13 * Bits.Pow2(b)
      {
        b := b + 1;
      }
      B := b;
      var bs: seq<seq<Slot<K, V>>> := [];
      if b != 0 {
        while |bs| < Bits.Pow2(b)
          invariant |bs| <= Bits.Pow2(b)
          invariant forall i :: 0 <= i < |bs| ==> bs[i] == Empties(BUCKET_SIZE)
        {
          bs := bs + [Empties(BUCKET_SIZE)];
        }
      }
      EmptyChain<K, V>();
      TotalOfEmpty(bs);
      buckets := bs;
    }

    /** The scan of one chain for key: the first full slot with its top-hash
        byte that holds key. An empty slot's byte is 0, which no top equals. */
    static method Find(c: seq<Slot<K, V>>, top: int, key: K) returns (found: Option<int>)
      ensures found.Some? ==>
        0 <= found.value < |c| && c[found.value].Full? && c[found.value].top == top && c[found.value].key == key
      ensures found.Some? ==> forall j :: 0 <= j < found.value && c[j].Full? && c[j].top == top ==> c[j].key != key
      ensures found.None? ==> forall j :: 0 <= j < |c| && c[j].Full? && c[j].top == top ==> c[j].key != key
    {
      var j := 0;
      while j < |c|
        invariant 0 <= j <= |c|
        invariant forall i :: 0 <= i < j && c[i].Full? && c[i].top == top ==> c[i].key != key
      {
        if c[j].Full? && c[j].top == top && c[j].key == key {
          return Some(j);
        }
        j := j + 1;
      }
      return None;
    }

    /** HashMap::_lookup: nothing when the map is empty, otherwise the slot
        of key's chain that holds it, as (bucket, slot). */
    method Lookup(key: K) returns (r: Option<(int, int)>)
      requires Valid()
      ensures r.None? <==> Value(key).None?
      ensures r.Some? ==>
        buckets != [] && r.value.0 == IndexOf(hash(key), B) &&
        0 <= r.value.1 < |buckets[r.value.0]| && buckets[r.value.0][r.value.1].Full? &&
        buckets[r.value.0][r.value.1].key == key && Value(key) == Some(buckets[r.value.0][r.value.1].value)
    {
      if count == 0 {
        if buckets != [] {
          var i := IndexOf(hash(key), B);
          TotalZero(buckets, i);
          NoneFull(buckets[i]);
        }
        return None;
      }
      var h := hash(key);
      var bi := IndexOf(h, B);
      var top := TopOf(h);
      var found := Find(buckets[bi], top, key);
      if found.None? {
        NotHeld(buckets[bi], bi, B, hash, key);
        return None;
      }
      ChainMapAt(buckets[bi], found.value);
      return Some((bi, found.value));
    }

    /** HashMap::get: the value held for key, or nothing. */
    method Get(key: K) returns (r: Option<V>)
      requires Valid()
      ensures r == Value(key)
    {
      var found := Lookup(key);
      if found.None? {
        return None;
      }
      return Some(buckets[found.value.0][found.value.1].value);
    }

    /** HashMap::get_or_default: the value held for key, or def. */
    method GetOrDefault(key: K, def: V) returns (r: V)
      requires Valid()
      ensures Value(key).Some? ==> r == Value(key).value
      ensures Value(key).None? ==> r == def
    {
      var found := Lookup(key);
      if found.None? {
        return def;
      }
      return buckets[found.value.0][found.value.1].value;
    }

    /** HashMap::remove: empty the slot that holds key, if any. */
    method Remove(key: K)
      requires Valid()
      modifies this
      ensures Valid() && B == old(B) && |buckets| == |old(buckets)|
      ensures Value(key) == None
      ensures forall k :: k != key ==> Value(k) == old(Value(k))
      ensures count == old(count) - (if old(Value(key)).Some? then 1 else 0)
    {
      var found := Lookup(key);
      if found.None? {
        return;
      }
      var bi, j := found.value.0, found.value.1;
      var c := buckets[bi];
      EraseOK(c, bi, B, hash, j);
      TotalUpdate(buckets, bi, c[j := Empty]);
      TableAfterErase(buckets, hash, B, c[j := Empty], key);
      buckets := buckets[bi := c[j := Empty]];
      count := count - 1;
    }

    /** HashMap::clear: every chain back to one empty root bucket; the
        number of buckets is kept. */
    method Clear()
      requires Valid()
      modifies this
      ensures Valid() && count == 0 && B == old(B) && |buckets| == |old(buckets)|
      ensures forall k :: Value(k) == None
    {
      if buckets == [] {
        return;
      }
      var i := 0;
      var bs := buckets;
      while i < |bs|
        invariant 0 <= i <= |bs| && |bs| == |buckets|
        invariant forall j :: 0 <= j < i ==> bs[j] == Empties(BUCKET_SIZE)
        invariant forall j :: i <= j < |bs| ==> bs[j] == buckets[j]
      {
        bs := bs[i := Empties(BUCKET_SIZE)];
        i := i + 1;
      }
      EmptyChain<K, V>();
      TotalOfEmpty(bs);
      buckets := bs;
      count := 0;
    }

    /** The scan of insert: the first full slot with key's top-hash byte
        that holds key and, until then, the first empty slot. */
    static method Scan(c: seq<Slot<K, V>>, top: int, key: K) returns (found: Option<int>, free: Option<int>)
      ensures found.Some? ==>
        0 <= found.value < |c| && c[found.value].Full? && c[found.value].top == top && c[found.value].key == key
      ensures found.None? ==> forall j :: 0 <= j < |c| && c[j].Full? && c[j].top == top ==> c[j].key != key
      ensures free.Some? ==>
        0 <= free.value < |c| && c[free.value].Empty? && forall j :: 0 <= j < free.value ==> c[j].Full?
      ensures found.None? && free.None? ==> forall j :: 0 <= j < |c| ==> c[j].Full?
    {
      free := None;
      var j := 0;
      while j < |c|
        invariant 0 <= j <= |c|
        invariant forall i :: 0 <= i < j && c[i].Full? && c[i].top == top ==> c[i].key != key
        invariant free.Some? ==>
          0 <= free.value < j && c[free.value].Empty? && forall i :: 0 <= i < free.value ==> c[i].Full?
        invariant free.None? ==> forall i :: 0 <= i < j ==> c[i].Full?
      {
        if !(c[j].Full? && c[j].top == top) {
          if c[j].Empty? && free.None? {
            free := Some(j);
          }
        } else if c[j].key == key {
          return Some(j), free;
        }
        j := j + 1;
      }
      return None, free;
    }

    /** HashMap::insert: overwrite the value held for key; otherwise grow
        the table first if it is at load 6.5 and holds at least
        BUCKET_SIZE keys, and store key in the first empty slot of its
        chain, linking a new bucket when there is none. */
    method Insert(key: K, value: V)
      requires Valid()
      modifies this
      ensures Valid()
      ensures Value(key) == Some(value)
      ensures forall k :: k != key ==> Value(k) == old(Value(k))
      ensures count == old(count) + (if old(Value(key)).None? then 1 else 0)
    {
      if buckets == [] {
        EmptyChain<K, V>();
        buckets := [Empties(BUCKET_SIZE)];
      }
      while true
        invariant Valid() && buckets != []
        invariant count == old(count)
        invariant forall k :: Value(k) == old(Value(k))
        decreases if 2 * count + 13 >= 13 * Bits.Pow2(B) then 2 * count + 13 - 13 * Bits.Pow2(B) else 0
      {
        var done := Attempt(key, value);
        if done {
          return;
        }
      }
    }

    /** The body of insert from its `again` label: store key, or grow the
        table when key is new and the table is at load 6.5 with at least
        BUCKET_SIZE keys. */
    method Attempt(key: K, value: V) returns (done: bool)
      requires Valid() && buckets != []
      modifies this
      ensures Valid() && buckets != []
      ensures done ==> Value(key) == Some(value)
      ensures done ==> forall k :: k != key ==> Value(k) == old(Value(k))
      ensures done ==> count == old(count) + (if old(Value(key)).None? then 1 else 0)
      ensures !done ==> 2 * count >= 13 * Bits.Pow2(old(B)) && B == old(B) + 1 && count == old(count)
      ensures !done ==> forall k :: Value(k) == old(Value(k))
    {
      var t, added := Store(buckets, B, hash, count, key, value);
      if t.None? {
        Grow();
        return false;
      }
      buckets := t.value;
      if added {
        count := count + 1;
      }
      return true;
    }

    /** One pass of insert over table bs of 2^b chains holding n keys: the
        new table, or nothing when key is not held and the table must grow
        first; added tells whether key was new. */
    static method Store(bs: seq<seq<Slot<K, V>>>, b: nat, hash: K -> int, n: int, key: K, value: V)
      returns (t: Option<seq<seq<Slot<K, V>>>>, added: bool)
      requires TableOK(bs, b, hash) && n == Total(bs)
      ensures added <==> TableValue(bs, hash, b, key).None?
      ensures t.None? <==> added && 2 * n >= 13 * Bits.Pow2(b) && n >= BUCKET_SIZE
      ensures t.Some? ==>
        TableOK(t.value, b, hash) && Total(t.value) == n + (if added then 1 else 0) &&
        TableValue(t.value, hash, b, key) == Some(value) &&
        forall k :: k != key ==> TableValue(t.value, hash, b, k) == TableValue(bs, hash, b, k)
    {
      var h := hash(key);
      var bi := IndexOf(h, b);
      var top := TopOf(h);
      var c := bs[bi];
      var found, free := Scan(c, top, key);
      if found.Some? {
        ChainMapAt(c, found.value);
        TableStore(bs, b, hash, c, found.value, key, value);
        return Some(bs[bi := c[found.value := Full(top, key, value)]]), false;
      }
      NotHeld(c, bi, b, hash, key);
      if 2 * n >= 13 * Bits.Pow2(b) && n >= BUCKET_SIZE {
        return None, true;
      }
      var at: int;
      if free.None? {
        ExtendOK(c, bi, b, hash);
        c := c + Empties(BUCKET_SIZE);
        at := |c| - BUCKET_SIZE;
      } else {
        at := free.value;
      }
      TableStore(bs, b, hash, c, at, key, value);
      return Some(bs[bi := c[at := Full(top, key, value)]]), true;
    }

    /** HashMap::_grow: double the number of buckets and split every chain
        into its two successors. */
    method Grow()
      requires Valid() && buckets != []
      modifies this
      ensures Valid() && B == old(B) + 1 && count == old(count)
      ensures forall k :: Value(k) == old(Value(k))
    {
      var t := Doubled(buckets, B, hash);
      B := B + 1;
      buckets := t;
    }
  }

  /** The hash map test of tests/Core/TestHashMap.cpp on any two distinct
      keys: a new map is empty, holds one key after an insert, finds it
      with its value and misses the other key, get_or_default falls back
      only for the missing key, and remove empties the map again. */
  method InsertGetRemove<K(==,!new), V>(hash: K -> int, k: K, other: K, v: V, def1: V, def2: V)
    returns (n0: int, n1: int, got: Option<V>, miss: Option<V>, x: V, y: V, n2: int, gone: Option<V>)
    requires k != other
    ensures n0 == 0 && n1 == 1 && got == Some(v) && miss == None
    ensures x == v && y == def2 && n2 == 0 && gone == None
  {
    var m := new HashMap<K, V>(0, hash);
    n0 := m.count;
    m.Insert(k, v);
    n1 := m.count;
    got := m.Get(k);
    miss := m.Get(other);
    x := m.GetOrDefault(k, def1);
    y := m.GetOrDefault(other, def2);
    m.Remove(k);
    n2 := m.count;
    gone := m.Get(k);
  }
}
