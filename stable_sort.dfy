/** A stable insertion sort by an arbitrary "sorts before" relation: the
    reference order for the in-place sorts of the tools. */
module StableSort {
  /** Insert x after the last element it does not sort before. */
  function InsertSorted<T(==)>(less: (T, T) -> bool, s: seq<T>, x: T): (r: seq<T>)
    ensures |r| == |s| + 1
    ensures r[|r| - 1] == x || (|s| > 0 && r[|r| - 1] == s[|s| - 1])
  {
    if |s| == 0 || !less(x, s[|s| - 1]) then s + [x]
    else InsertSorted(less, s[..|s| - 1], x) + [s[|s| - 1]]
  }

  function SortSpec<T(==)>(less: (T, T) -> bool, s: seq<T>): seq<T>
  {
    if |s| == 0 then [] else InsertSorted(less, SortSpec(less, s[..|s| - 1]), s[|s| - 1])
  }

  /** InsertSorted puts x at some j: x does not sort before s[j-1], and x
      sorts before every element it passed. */
  lemma {:induction false} InsertSortedSplit<T>(less: (T, T) -> bool, s: seq<T>, x: T) returns (j: nat)
    ensures j <= |s|
    ensures InsertSorted(less, s, x) == s[..j] + [x] + s[j..]
    ensures j > 0 ==> !less(x, s[j - 1])
    ensures forall k :: j <= k < |s| ==> less(x, s[k])
  {
    if |s| == 0 || !less(x, s[|s| - 1]) {
      j := |s|;
    } else {
      var s' := s[..|s| - 1];
      j := InsertSortedSplit(less, s', x);
      assert s'[..j] == s[..j];
      assert s'[j..] + [s[|s| - 1]] == s[j..];
    }
  }

  lemma {:induction false} InsertSortedPermutes<T>(less: (T, T) -> bool, s: seq<T>, x: T)
    ensures multiset(InsertSorted(less, s, x)) == multiset(s) + multiset{x}
  {
    if |s| > 0 && less(x, s[|s| - 1]) {
      var s' := s[..|s| - 1];
      InsertSortedPermutes(less, s', x);
      assert s == s' + [s[|s| - 1]];
    }
  }

  lemma {:induction false} SortSpecPermutes<T>(less: (T, T) -> bool, s: seq<T>)
    ensures multiset(SortSpec(less, s)) == multiset(s)
  {
    if |s| > 0 {
      var s', x := s[..|s| - 1], s[|s| - 1];
      SortSpecPermutes(less, s');
      SortSpecLast(less, s);
      InsertSortedPermutes(less, SortSpec(less, s'), x);
      MultisetSnoc(s, s', x);
    }
  }

  lemma SortSpecLast<T>(less: (T, T) -> bool, s: seq<T>)
    requires |s| > 0
    ensures SortSpec(less, s) == InsertSorted(less, SortSpec(less, s[..|s| - 1]), s[|s| - 1])
  {
  }

  lemma MultisetSnoc<T>(s: seq<T>, s': seq<T>, x: T)
    requires |s| > 0 && s' == s[..|s| - 1] && x == s[|s| - 1]
    ensures multiset(s) == multiset(s') + multiset{x}
  {
    assert s == s' + [x];
  }

  predicate Asymmetric<T(==)>(less: (T, T) -> bool, s: seq<T>)
  {
    forall a, b :: a in s && b in s && less(a, b) ==> !less(b, a)
  }

  /** No element sorts before its left neighbour. */
  predicate AdjacentOrdered<T(==)>(less: (T, T) -> bool, r: seq<T>)
  {
    forall i :: 0 < i < |r| ==> !less(r[i], r[i - 1])
  }

  lemma {:induction false} InsertSortedAdjacent<T>(less: (T, T) -> bool, s: seq<T>, x: T)
    requires AdjacentOrdered(less, s) && Asymmetric(less, s + [x])
    ensures AdjacentOrdered(less, InsertSorted(less, s, x))
  {
    var sx := s + [x];
    if |s| == 0 || !less(x, s[|s| - 1]) {
      forall i | 0 < i < |sx| ensures !less(sx[i], sx[i - 1]) {
        if i < |s| {
          assert sx[i] == s[i] && sx[i - 1] == s[i - 1];
        }
      }
    } else {
      var s', last := s[..|s| - 1], s[|s| - 1];
      assert AdjacentOrdered(less, s') by {
        forall i | 0 < i < |s'| ensures !less(s'[i], s'[i - 1]) {
          assert s'[i] == s[i] && s'[i - 1] == s[i - 1];
        }
      }
      assert Asymmetric(less, s' + [x]) by {
        forall a | a in s' + [x] ensures a in sx {}
      }
      InsertSortedAdjacent(less, s', x);
      var r' := InsertSorted(less, s', x);
      var r := r' + [last];
      assert last in sx && x in sx;
      forall i | 0 < i < |r| ensures !less(r[i], r[i - 1]) {
        if i < |r'| {
          assert r[i] == r'[i] && r[i - 1] == r'[i - 1];
        }
      }
    }
  }

  lemma {:induction false} SortSpecAdjacent<T>(less: (T, T) -> bool, s: seq<T>)
    requires Asymmetric(less, s)
    ensures AdjacentOrdered(less, SortSpec(less, s))
  {
    if |s| > 0 {
      var s', x := s[..|s| - 1], s[|s| - 1];
      assert s == s' + [x];
      assert Asymmetric(less, s') by {
        forall a | a in s' ensures a in s {}
      }
      SortSpecAdjacent(less, s');
      var r := SortSpec(less, s');
      SortSpecPermutes(less, s');
      assert Asymmetric(less, r + [x]) by {
        forall a | a in r + [x] ensures a in s {
          assert a in multiset(r + [x]);
        }
      }
      InsertSortedAdjacent(less, r, x);
    }
  }

  /** "Does not sort before" is transitive on the elements of s. */
  predicate Consistent<T(==)>(less: (T, T) -> bool, s: seq<T>)
  {
    forall a, b, c :: a in s && b in s && c in s && !less(b, a) && !less(c, b) ==> !less(c, a)
  }

  predicate Sorted<T(==)>(less: (T, T) -> bool, r: seq<T>)
  {
    forall i, j :: 0 <= i < j < |r| ==> !less(r[j], r[i])
  }

  lemma {:induction false} InsertSortedSorted<T>(less: (T, T) -> bool, s: seq<T>, x: T)
    requires Sorted(less, s) && Asymmetric(less, s + [x]) && Consistent(less, s + [x])
    ensures Sorted(less, InsertSorted(less, s, x))
  {
    var sx := s + [x];
    if |s| == 0 || !less(x, s[|s| - 1]) {
      forall i, j | 0 <= i < j < |sx| ensures !less(sx[j], sx[i]) {
        if j == |s| && i < |s| - 1 {
          assert s[|s| - 1] == sx[|s| - 1] && s[i] == sx[i];
          assert !less(s[|s| - 1], s[i]);
        }
      }
    } else {
      var s', last := s[..|s| - 1], s[|s| - 1];
      assert Asymmetric(less, s' + [x]) && Consistent(less, s' + [x]) by {
        forall a | a in s' + [x] ensures a in sx {}
      }
      InsertSortedSorted(less, s', x);
      var r' := InsertSorted(less, s', x);
      InsertSortedPermutes(less, s', x);
      var r := r' + [last];
      forall i, j | 0 <= i < j < |r| ensures !less(r[j], r[i]) {
        if j == |r'| {
          var y := r'[i];
          assert y in multiset(r');
          if y == x {
            assert x in sx && last in sx;
          } else {
            assert y in s';
            var k :| 0 <= k < |s'| && s'[k] == y;
            assert s[k] == y;
          }
        } else {
          assert r[i] == r'[i] && r[j] == r'[j];
        }
      }
    }
  }

  lemma {:induction false} SortSpecSorted<T>(less: (T, T) -> bool, s: seq<T>)
    requires Asymmetric(less, s) && Consistent(less, s)
    ensures Sorted(less, SortSpec(less, s))
  {
    if |s| > 0 {
      var s', x := s[..|s| - 1], s[|s| - 1];
      assert s == s' + [x];
      assert Asymmetric(less, s') && Consistent(less, s') by {
        forall a | a in s' ensures a in s {}
      }
      SortSpecSorted(less, s');
      var r := SortSpec(less, s');
      SortSpecPermutes(less, s');
      assert Asymmetric(less, r + [x]) && Consistent(less, r + [x]) by {
        forall a | a in r + [x] ensures a in s {
          assert a in multiset(r + [x]);
        }
      }
      InsertSortedSorted(less, r, x);
    }
  }

  /** The elements of s in the same class as e (neither sorts before the
      other), in order. */
  function Class<T(==)>(less: (T, T) -> bool, s: seq<T>, e: T): seq<T>
  {
    if |s| == 0 then [] else
      var last := s[|s| - 1];
      Class(less, s[..|s| - 1], e) + (if !less(last, e) && !less(e, last) then [last] else [])
  }

  /** If x is in e's class, it sorts before no member of that class in s. */
  predicate NotBeforeClass<T(==)>(less: (T, T) -> bool, s: seq<T>, x: T, e: T)
  {
    !less(x, e) && !less(e, x) ==>
      forall a :: a in s && !less(a, e) && !less(e, a) ==> !less(x, a)
  }

  lemma {:induction false} ClassSnoc<T>(less: (T, T) -> bool, s: seq<T>, y: T, e: T)
    ensures Class(less, s + [y], e) == Class(less, s, e) + (if !less(y, e) && !less(e, y) then [y] else [])
  {
    assert (s + [y])[..|s|] == s;
  }

  lemma {:induction false} InsertSortedClass<T>(less: (T, T) -> bool, s: seq<T>, x: T, e: T)
    requires NotBeforeClass(less, s, x, e)
    ensures Class(less, InsertSorted(less, s, x), e) ==
      Class(less, s, e) + (if !less(x, e) && !less(e, x) then [x] else [])
  {
    if |s| == 0 || !less(x, s[|s| - 1]) {
      ClassSnoc(less, s, x, e);
    } else {
      var s', last := s[..|s| - 1], s[|s| - 1];
      assert s == s' + [last];
      assert NotBeforeClass(less, s', x, e) by {
        forall a | a in s' ensures a in s {}
      }
      InsertSortedClass(less, s', x, e);
      var r' := InsertSorted(less, s', x);
      assert InsertSorted(less, s, x) == r' + [last];
      ClassSnoc(less, r', last, e);
      ClassSnoc(less, s', last, e);
      assert last in s;
    }
  }

  /** Stability: the elements of each class keep their input order. */
  lemma {:induction false} SortSpecStable<T>(less: (T, T) -> bool, s: seq<T>, e: T)
    requires Consistent(less, s + [e])
    ensures Class(less, SortSpec(less, s), e) == Class(less, s, e)
  {
    if |s| > 0 {
      var s', x := s[..|s| - 1], s[|s| - 1];
      assert s == s' + [x];
      assert Consistent(less, s' + [e]) by {
        forall a | a in s' + [e] ensures a in s + [e] {}
      }
      SortSpecStable(less, s', e);
      var r := SortSpec(less, s');
      SortSpecPermutes(less, s');
      assert NotBeforeClass(less, r, x, e) by {
        assert x in s + [e] && e in s + [e];
        forall a | a in r ensures a in s + [e] {
          assert a in multiset(r);
        }
      }
      InsertSortedClass(less, r, x, e);
      ClassSnoc(less, s', x, e);
    }
  }

  /** One step of the insertion: x passes the element at j-1. */
  lemma {:induction false} InsertSortedStep<T>(less: (T, T) -> bool, s: seq<T>, x: T, j: nat)
    requires 0 < j <= |s| && less(x, s[j - 1])
    requires InsertSorted(less, s, x) == InsertSorted(less, s[..j], x) + s[j..]
    ensures InsertSorted(less, s, x) == InsertSorted(less, s[..j - 1], x) + s[j - 1..]
  {
    InsertSortedPass(less, s[..j], x);
    assert s[..j][..j - 1] == s[..j - 1];
    var p := InsertSorted(less, s[..j - 1], x);
    calc {
      InsertSorted(less, s, x);
      InsertSorted(less, s[..j], x) + s[j..];
      (p + [s[j - 1]]) + s[j..];
      { assert s[j - 1..] == [s[j - 1]] + s[j..]; }
      p + s[j - 1..];
    }
  }

  lemma {:induction false} InsertSortedPass<T>(less: (T, T) -> bool, s: seq<T>, x: T)
    requires |s| > 0 && less(x, s[|s| - 1])
    ensures InsertSorted(less, s, x) == InsertSorted(less, s[..|s| - 1], x) + [s[|s| - 1]]
  {
  }

  /** Moves a[i] left past the elements of the prefix a[..i] it sorts before. */
  method InsertInto<T>(less: (T, T) -> bool, a: array<T>, i: nat)
    requires i < a.Length
    modifies a
    ensures a[..] == InsertSorted(less, old(a[..i]), old(a[i])) + old(a[i + 1..])
  {
    ghost var sorted, rest := a[..i], a[i + 1..];
    var x := a[i];
    var j := i;
    assert a[..] == sorted[..j] + [a[j]] + sorted[j..] + rest by {
      assert sorted[..j] == sorted && sorted[j..] == [];
      assert a[..] == a[..i] + [a[i]] + a[i + 1..];
    }
    while j > 0 && less(x, a[j - 1])
      invariant 0 <= j <= i && |sorted| == i
      invariant a[..] == sorted[..j] + [a[j]] + sorted[j..] + rest
      invariant InsertSorted(less, sorted, x) == InsertSorted(less, sorted[..j], x) + sorted[j..]
    {
      ShiftStep(sorted, rest, j, a[j]);
      InsertSortedStep(less, sorted, x, j);
      a[j] := a[j - 1];
      j := j - 1;
    }
    PlaceStep(sorted, rest, j, a[j], x);
    a[j] := x;
    InsertSortedStop(less, sorted, x, j);
  }

  /** Copying the element left of the hole into it moves the hole one place left. */
  lemma {:induction false} ShiftStep<T>(s: seq<T>, rest: seq<T>, j: nat, y: T)
    requires 0 < j <= |s|
    ensures (s[..j] + [y] + s[j..] + rest)[j - 1] == s[j - 1]
    ensures (s[..j] + [y] + s[j..] + rest)[j := s[j - 1]] == s[..j - 1] + [s[j - 1]] + s[j - 1..] + rest
  {
    var lhs := (s[..j] + [y] + s[j..] + rest)[j := s[j - 1]];
    var rhs := s[..j - 1] + [s[j - 1]] + s[j - 1..] + rest;
    assert |lhs| == |rhs|;
    forall k | 0 <= k < |lhs| ensures lhs[k] == rhs[k] {
      if k < j - 1 {
      } else if k == j - 1 || k == j {
      } else if k <= |s| {
        assert lhs[k] == s[k - 1];
      } else {
        assert lhs[k] == rest[k - |s| - 1];
      }
    }
  }

  lemma {:induction false} PlaceStep<T>(s: seq<T>, rest: seq<T>, j: nat, y: T, x: T)
    requires j <= |s|
    ensures (s[..j] + [y] + s[j..] + rest)[j := x] == s[..j] + [x] + s[j..] + rest
  {
  }

  /** Where the insertion stops, x goes right after the prefix. */
  lemma {:induction false} InsertSortedStop<T>(less: (T, T) -> bool, s: seq<T>, x: T, j: nat)
    requires j <= |s| && (j == 0 || !less(x, s[j - 1]))
    ensures InsertSorted(less, s[..j], x) == s[..j] + [x]
  {
  }

  /** Insertion sort in place; the result is SortSpec of the original contents. */
  method Sort<T>(less: (T, T) -> bool, a: array<T>)
    modifies a
    ensures a[..] == SortSpec(less, old(a[..]))
  {
    ghost var orig := a[..];
    var i := 0;
    assert orig[..0] == [] && orig[0..] == orig;
    while i < a.Length
      invariant 0 <= i <= a.Length
      invariant a[..] == SortSpec(less, orig[..i]) + orig[i..]
    {
      ghost var before := a[..];
      var sorted := SortSpec(less, orig[..i]);
      assert before[..i] == sorted && before[i] == orig[i] && before[i + 1..] == orig[i + 1..];
      InsertInto(less, a, i);
      SortSpecSnoc(less, orig, i);
      i := i + 1;
    }
    assert orig[..a.Length] == orig && orig[a.Length..] == [];
  }

  lemma {:induction false} SortSpecSnoc<T>(less: (T, T) -> bool, s: seq<T>, i: nat)
    requires i < |s|
    ensures SortSpec(less, s[..i + 1]) == InsertSorted(less, SortSpec(less, s[..i]), s[i])
  {
    assert s[..i + 1][..i] == s[..i];
  }
}
