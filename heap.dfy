/** Heap<T>: a binary min-heap stored in a growable array, with the
    children of slot i at 2i+1 and 2i+2. Elements are modelled as integers
    under their usual order, which is what the source's `<` stands for. */
module Heaps {

  /** The parent slot, computed as (j-1)/2 with C's truncating division:
      the root is its own parent, which is what stops _up. */
  function Parent(j: int): (r: int)
    requires j >= 0
    ensures j == 0 ==> r == 0
    ensures j > 0 ==> 0 <= r < j && (j == 2 * r + 1 || j == 2 * r + 2)
  {
    if j == 0 then 0 else (j - 1) / 2
  }

  /** No slot below n holds less than its parent. */
  ghost predicate Ordered(s: seq<int>, n: int)
  {
    0 <= n <= |s| && forall k :: 0 < k < n ==> s[Parent(k)] <= s[k]
  }

  function Swap(s: seq<int>, i: int, j: int): (r: seq<int>)
    requires 0 <= i < |s| && 0 <= j < |s|
    ensures |r| == |s| && r[i] == s[j] && r[j] == s[i]
    ensures forall k :: 0 <= k < |s| && k != i && k != j ==> r[k] == s[k]
    ensures multiset(r) == multiset(s)
  {
    var t := s[i := s[j]][j := s[i]];
    assert multiset(s[i := s[j]]) == multiset(s) - multiset{s[i]} + multiset{s[j]};
    t
  }

  lemma SwapTail(s: seq<int>, i: int, j: int, n: int)
    requires 0 <= i < n && 0 <= j < n && n <= |s|
    ensures Swap(s, i, j)[n..] == s[n..]
  {
    var t := Swap(s, i, j);
    assert forall k :: 0 <= k < |s| - n ==> t[n..][k] == t[n + k] == s[n + k];
  }

  /** The root of an ordered heap is a minimum. */
  lemma {:induction false} RootMin(s: seq<int>, k: int)
    requires Ordered(s, |s|) && 0 <= k < |s|
    ensures s[0] <= s[k]
    decreases k
  {
    if k > 0 {
      RootMin(s, Parent(k));
    }
  }

  // ---------------------------------------------------------------------
  // _up: the element at j climbs while it is less than its parent.

  /** Ordered except between j and its parent, and j's parent is no greater
      than j's children. */
  ghost predicate UpInv(s: seq<int>, j: int)
  {
    0 <= j < |s| &&
    (forall k :: 0 < k < |s| && k != j ==> s[Parent(k)] <= s[k]) &&
    (forall k :: 0 < k < |s| && Parent(k) == j && j > 0 ==> s[Parent(j)] <= s[k])
  }

  lemma UpDone(s: seq<int>, j: int)
    requires UpInv(s, j) && s[Parent(j)] <= s[j]
    ensures Ordered(s, |s|)
  {
  }

  lemma UpStep(s: seq<int>, j: int)
    requires UpInv(s, j) && j > 0 && s[j] < s[Parent(j)]
    ensures UpInv(Swap(s, Parent(j), j), Parent(j))
  {
    var i := Parent(j);
    var t := Swap(s, i, j);
    forall k | 0 < k < |t| && k != i ensures t[Parent(k)] <= t[k] {
      if k == j {
      } else if Parent(k) == j {
        assert t[Parent(k)] == s[i] <= s[k];
      } else if Parent(k) == i {
        assert t[Parent(k)] == s[j] < s[i] <= s[k];
      }
    }
    if i > 0 {
      forall k | 0 < k < |t| && Parent(k) == i ensures t[Parent(i)] <= t[k] {
        assert t[Parent(i)] == s[Parent(i)] <= s[i];
        if k != j {
          assert s[i] <= s[k];
        }
      }
    }
  }

  // ---------------------------------------------------------------------
  // _down: the element at i sinks below its lesser child, within [0, n).

  /** The prefix [0, n) is ordered except between i and its children, and
      i's parent is no greater than i's children. */
  ghost predicate DownInv(s: seq<int>, i: int, n: int)
  {
    0 <= i && 0 <= n <= |s| &&
    (forall k :: 0 < k < n && Parent(k) != i ==> s[Parent(k)] <= s[k]) &&
    (forall k :: 0 < k < n && Parent(k) == i && i > 0 ==> s[Parent(i)] <= s[k])
  }

  lemma DownDone(s: seq<int>, i: int, n: int)
    requires DownInv(s, i, n)
    requires forall k :: 0 < k < n && Parent(k) == i ==> s[i] <= s[k]
    ensures Ordered(s, n)
  {
  }

  /** The child _down picks is the lesser of i's children below n (the
      right one on a tie). */
  lemma LesserChild(s: seq<int>, i: int, n: int, j: int)
    requires 0 <= i && 2 * i + 1 < n <= |s|
    requires j == if 2 * i + 2 < n && !(s[2 * i + 1] < s[2 * i + 2]) then 2 * i + 2 else 2 * i + 1
    ensures 0 < j < n && Parent(j) == i
    ensures forall k :: 0 < k < n && Parent(k) == i ==> s[j] <= s[k]
  {
  }

  lemma DownStep(s: seq<int>, i: int, j: int, n: int)
    requires DownInv(s, i, n) && 0 < j < n && Parent(j) == i && s[j] < s[i]
    requires forall k :: 0 < k < n && Parent(k) == i ==> s[j] <= s[k]
    ensures DownInv(Swap(s, i, j), j, n)
  {
    var t := Swap(s, i, j);
    forall k | 0 < k < n && Parent(k) != j ensures t[Parent(k)] <= t[k] {
      if k == j {
      } else if Parent(k) == i {
        assert t[Parent(k)] == s[j] <= s[k];
      } else if k == i {
        assert t[Parent(k)] == s[Parent(i)] <= s[j];
      }
    }
    forall k | 0 < k < n && Parent(k) == j ensures t[Parent(j)] <= t[k] {
      assert t[Parent(j)] == s[j] <= s[k];
    }
  }

  /** Swapping the root with the last slot leaves the rest ordered except
      at the root. */
  lemma PopStart(s: seq<int>)
    requires Ordered(s, |s|) && |s| > 0
    ensures DownInv(Swap(s, 0, |s| - 1), 0, |s| - 1)
  {
  }

  /** After the root was swapped to the last slot and the rest reordered,
      the last slot holds a minimum and the rest is a heap of the others. */
  lemma PopEnd(s: seq<int>, t: seq<int>)
    requires Ordered(s, |s|) && |s| > 0 && |t| == |s|
    requires Ordered(t, |s| - 1) && multiset(t) == multiset(s)
    requires t[|s| - 1..] == Swap(s, 0, |s| - 1)[|s| - 1..]
    ensures Ordered(t[..|s| - 1], |s| - 1)
    ensures multiset(t[..|s| - 1]) + multiset{t[|s| - 1]} == multiset(s)
    ensures forall y :: y in s ==> t[|s| - 1] <= y
  {
    var last := |s| - 1;
    assert t[last] == t[last..][0] == s[0];
    assert t == t[..last] + [t[last]];
    forall y | y in s ensures t[last] <= y {
      var k :| 0 <= k < |s| && s[k] == y;
      RootMin(s, k);
    }
  }

  // ---------------------------------------------------------------------
  // The heap object.

  class Heap {
    var data: seq<int>

    ghost predicate Valid()
      reads this
    {
      Ordered(data, |data|)
    }

    constructor ()
      ensures Valid() && data == []
    {
      data := [];
    }

    /** Heap::_up(j): swap the element at j with its parent while it is the
        lesser of the two. */
    method Up(j0: int)
      requires UpInv(data, j0)
      modifies this
      ensures Valid() && multiset(data) == old(multiset(data)) && |data| == old(|data|)
    {
      var s, j := data, j0;
      while true
        invariant UpInv(s, j) && |s| == |old(data)|
        invariant multiset(s) == multiset(old(data))
        decreases j
      {
        var i := Parent(j);
        if i == j || !(s[j] < s[i]) {
          UpDone(s, j);
          break;
        }
        UpStep(s, j);
        s := Swap(s, i, j);
        j := i;
      }
      data := s;
    }

    /** Heap::_down(i, n): swap the element at i with its lesser child (the
        right one on a tie) while that child is less than it; slots from n
        on are left alone. */
    method Down(i0: int, n: int)
      requires DownInv(data, i0, n)
      modifies this
      ensures Ordered(data, n) && multiset(data) == old(multiset(data)) && |data| == old(|data|)
      ensures data[n..] == old(data[n..])
    {
      var s, i := data, i0;
      while true
        invariant DownInv(s, i, n) && |s| == |old(data)|
        invariant multiset(s) == multiset(old(data))
        invariant s[n..] == old(data)[n..]
        decreases n - i
      {
        var j1 := 2 * i + 1;
        if j1 >= n || j1 < 0 {
          DownDone(s, i, n);
          break;
        }
        var j2 := j1 + 1;
        var j := j1;
        if j2 < n && !(s[j1] < s[j2]) {
          j := j2;
        }
        LesserChild(s, i, n, j);
        if !(s[j] < s[i]) {
          DownDone(s, i, n);
          break;
        }
        DownStep(s, i, j, n);
        SwapTail(s, i, j, n);
        s := Swap(s, i, j);
        i := j;
      }
      data := s;
    }

    /** Heap::push: append, then let the new element climb. */
    method Push(x: int)
      requires Valid()
      modifies this
      ensures Valid() && multiset(data) == old(multiset(data)) + multiset{x}
      ensures |data| == old(|data|) + 1
    {
      data := data + [x];
      Up(|data| - 1);
    }

    /** Heap::pop: move the root to the last slot, restore the order of the
        rest, and remove and return the last slot. Popping an empty heap
        indexes out of bounds in the source. */
    method Pop() returns (out: int)
      requires Valid() && |data| > 0
      modifies this
      ensures Valid() && multiset(data) + multiset{out} == old(multiset(data))
      ensures |data| == old(|data|) - 1
      ensures forall y :: y in old(data) ==> out <= y
    {
      ghost var s := data;
      var last := |data| - 1;
      PopStart(s);
      data := Swap(data, 0, last);
      Down(0, last);
      PopEnd(s, data);
      out := data[last];
      data := data[..last];
    }
  }

  predicate Ascending(s: seq<int>)
  {
    forall a, b :: 0 <= a < b < |s| ==> s[a] <= s[b]
  }

  /** Pushing a sequence and popping everything gives it back in ascending
      order. */
  method HeapSort(xs: seq<int>) returns (out: seq<int>)
    ensures Ascending(out) && multiset(out) == multiset(xs)
  {
    var h := new Heap();
    var i := 0;
    while i < |xs|
      invariant 0 <= i <= |xs| && h.Valid() && multiset(h.data) == multiset(xs[..i])
    {
      assert xs[..i + 1] == xs[..i] + [xs[i]];
      h.Push(xs[i]);
      i := i + 1;
    }
    assert xs[..i] == xs;
    out := [];
    while |h.data| > 0
      invariant h.Valid() && multiset(out) + multiset(h.data) == multiset(xs)
      invariant Ascending(out)
      invariant forall a, y :: a in out && y in h.data ==> a <= y
      decreases |h.data|
    {
      ghost var before := h.data;
      var x := h.Pop();
      assert x in multiset(before);
      forall y | y in h.data ensures y in before {
        assert y in multiset(h.data) && y in multiset(before);
      }
      forall a, b | 0 <= a < b < |out| + 1 ensures (out + [x])[a] <= (out + [x])[b] {
        if b == |out| {
          assert out[a] in out && x in before;
        }
      }
      out := out + [x];
    }
  }
}
