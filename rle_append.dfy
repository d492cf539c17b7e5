/** Building an encoding one element at a time (rle_append in
    Geometry/RLE.h, driven by HermiteRLEField's sub-field constructor and
    closed by HermiteRLEField::finalize). While the field is being built
    the header vector has no sentinel yet: the headers so far, closed by a
    sentinel at the number of elements appended, form a well-formed
    encoding. */
module RleAppend {
  import opened Rle
  import opened RleOps

  /** The headers so far followed by the sentinel finalize writes. */
  function Close(seqs: seq<RleSeq>, n: int): seq<RleSeq>
  {
    seqs + [MakeSeq(n, 0, false)]
  }

  /** seqs and data hold the first n elements of a field under
      construction. */
  ghost predicate Building<T>(seqs: seq<RleSeq>, data: seq<T>, n: int)
  {
    0 <= n < 0x1_0000 && WellFormed(Close(seqs, n), data)
  }

  /** What rle_append does to the two vectors. The caller passes the
      number of elements appended so far as offset; the first call
      asserts it is 0 and always writes offset 0. */
  function AppendTo<T(==)>(seqs: seq<RleSeq>, data: seq<T>, elem: T, offset: int): (seq<RleSeq>, seq<T>)
    requires |seqs| == 0 || |data| > 0
  {
    if |seqs| == 0 then ([MakeSeq(0, 0, true)], data + [elem])
    else if IsCompressed(seqs[|seqs| - 1]) then
      if data[|data| - 1] != elem then (seqs + [MakeSeq(offset, |data|, false)], data + [elem])
      else (seqs, data)
    else if data[|data| - 1] == elem then (seqs + [MakeSeq(offset, |data|, true)], data + [elem])
    else (seqs, data + [elem])
  }

  /** The sentinel of a closed header list reads back its offset. */
  lemma CloseFacts(seqs: seq<RleSeq>, n: int)
    requires 0 <= n < 0x1_0000
    ensures |Close(seqs, n)| == |seqs| + 1 && Total(Close(seqs, n)) == n
    ensures !IsCompressed(Close(seqs, n)[|seqs|])
    ensures forall i :: 0 <= i < |seqs| ==> Close(seqs, n)[i] == seqs[i]
  {
    MakeSeqFields(n, 0, false);
  }

  /** Building state facts: an empty header list holds nothing, and a
      non-empty one has data, the last element of which is the last element
      of the field. */
  lemma {:induction false} BuildingFacts<T>(seqs: seq<RleSeq>, data: seq<T>, n: int)
    requires Building(seqs, data, n)
    ensures |seqs| == 0 <==> n == 0
    ensures |seqs| == 0 ==> |data| == 0
    ensures |seqs| > 0 ==> |data| > 0 && |data| <= n && Expand(Close(seqs, n), data)[n - 1] == data[|data| - 1]
  {
    var S := Close(seqs, n);
    CloseFacts(seqs, n);
    if |seqs| > 0 {
      var L := |seqs| - 1;
      NextRun(S, data, L);
      ValueAt(S, data, L, Len(S, L) - 1);
      DataBound(S, data, L);
    }
  }

  /** The data stored for the first i + 1 runs never outnumbers the
      elements they stand for. */
  lemma {:induction false} DataBound<T>(S: seq<RleSeq>, data: seq<T>, i: int)
    requires WellFormed(S, data) && 0 <= i < |S| - 1
    ensures DataOffset(S[i]) + Width(S, i) <= Offset(S[i + 1])
  {
    assert Len(S, i) > 0;
    if i > 0 {
      DataBound(S, data, i - 1);
      NextRun(S, data, i - 1);
    }
  }

  /** The run that holds logical offset k. */
  lemma RunOf<T>(S: seq<RleSeq>, data: seq<T>, k: int) returns (i: int)
    requires WellFormed(S, data) && 0 <= k < Total(S)
    ensures 0 <= i < |S| - 1 && Offset(S[i]) <= k < Offset(S[i + 1])
  {
    i := RunFrom(S, data, k, 0);
  }

  lemma {:induction false} RunFrom<T>(S: seq<RleSeq>, data: seq<T>, k: int, i0: int) returns (i: int)
    requires WellFormed(S, data) && 0 <= i0 < |S| && Offset(S[i0]) <= k < Total(S)
    ensures 0 <= i < |S| - 1 && Offset(S[i]) <= k < Offset(S[i + 1])
    decreases |S| - i0
  {
    if i0 == |S| - 1 {
      assert false;
    }
    if k < Offset(S[i0 + 1]) {
      i := i0;
    } else {
      i := RunFrom(S, data, k, i0 + 1);
    }
  }

  /** Two encodings that share the runs of the first and whose data extends
      the first's agree on every element of the first. */
  lemma AgreeAt<T>(S: seq<RleSeq>, D: seq<T>, S2: seq<RleSeq>, D2: seq<T>, k: int)
    requires WellFormed(S, D) && WellFormed(S2, D2) && |S| <= |S2|
    requires forall i :: 0 <= i < |S| - 1 ==> S2[i] == S[i]
    requires |D| <= |D2| && D == D2[..|D|]
    requires Total(S) <= Offset(S2[|S| - 1])
    requires 0 <= k < Total(S)
    ensures k < |Expand(S2, D2)| && Expand(S2, D2)[k] == Expand(S, D)[k]
  {
    var i := RunOf(S, D, k);
    if i + 1 == |S| - 1 {
      assert Offset(S[i + 1]) <= Offset(S2[i + 1]);
    } else {
      assert S2[i + 1] == S[i + 1];
    }
    ValueAt(S, D, i, k - Offset(S[i]));
    ValueAt(S2, D2, i, k - Offset(S[i]));
  }

  /** Two encodings agreeing on the first n elements, the second with one
      more element, elem: the second expands to the first plus elem. */
  lemma ExtendedBy<T>(S: seq<RleSeq>, D: seq<T>, S2: seq<RleSeq>, D2: seq<T>, n: int, elem: T)
    requires WellFormed(S, D) && WellFormed(S2, D2) && |S| <= |S2| && Total(S) == n && Total(S2) == n + 1
    requires forall i :: 0 <= i < |S| - 1 ==> S2[i] == S[i]
    requires |D| <= |D2| && D == D2[..|D|]
    requires n <= Offset(S2[|S| - 1])
    requires Expand(S2, D2)[n] == elem
    ensures Expand(S2, D2) == Expand(S, D) + [elem]
  {
    forall k | 0 <= k < n
      ensures Expand(S2, D2)[k] == Expand(S, D)[k]
    {
      AgreeAt(S, D, S2, D2, k);
    }
  }

  /** The first append: one compressed run holding elem. */
  lemma AppendFirst<T>(elem: T)
    ensures Building([MakeSeq(0, 0, true)], [elem], 1)
    ensures Expand(Close([MakeSeq(0, 0, true)], 1), [elem]) == [elem]
  {
    var S := Close([MakeSeq(0, 0, true)], 1);
    MakeSeqFields(0, 0, true);
    CloseFacts([MakeSeq(0, 0, true)], 1);
    assert WellFormed(S, [elem]);
    ValueAt(S, [elem], 0, 0);
  }

  /** An append that opens a new run of length one at offset n. Compressed
      or not, the new run stores one element. */
  lemma AppendNewRun<T>(seqs: seq<RleSeq>, data: seq<T>, n: int, elem: T, compressed: bool)
    requires Building(seqs, data, n) && |seqs| > 0 && n + 1 < 0x1_0000 && |data| < COMPRESSED_FLAG
    ensures Building(seqs + [MakeSeq(n, |data|, compressed)], data + [elem], n + 1)
    ensures Expand(Close(seqs + [MakeSeq(n, |data|, compressed)], n + 1), data + [elem]) ==
            Expand(Close(seqs, n), data) + [elem]
  {
    var h := MakeSeq(n, |data|, compressed);
    var S, S2, D2 := Close(seqs, n), Close(seqs + [h], n + 1), data + [elem];
    var L := |seqs|;
    CloseFacts(seqs, n);
    CloseFacts(seqs + [h], n + 1);
    MakeSeqFields(n, |data|, compressed);
    assert S2[L] == h && S2[..L] == seqs && S[..L] == seqs;
    NewRunWellFormed(S, data, S2, D2, L);
    ValueAt(S2, D2, L, 0);
    assert D2[..|data|] == data;
    ExtendedBy(S, data, S2, D2, n, elem);
  }

  lemma NewRunWellFormed<T>(S: seq<RleSeq>, D: seq<T>, S2: seq<RleSeq>, D2: seq<T>, L: int)
    requires WellFormed(S, D) && L == |S| - 1 >= 1 && |S2| == L + 2 && |D2| == |D| + 1
    requires forall i :: 0 <= i < L ==> S2[i] == S[i]
    requires Offset(S2[L]) == Total(S) && DataOffset(S2[L]) == |D|
    requires Offset(S2[L + 1]) == Total(S) + 1 && !IsCompressed(S2[L + 1])
    ensures WellFormed(S2, D2)
  {
    NextRun(S, D, L - 1);
    forall i | 0 <= i < |S2| - 1
      ensures Len(S2, i) > 0 && DataOffset(S2[i]) + Width(S2, i) <= |D2|
    {
      if i < L - 1 {
        assert S2[i + 1] == S[i + 1];
        assert Len(S, i) > 0 && DataOffset(S[i]) + Width(S, i) <= |D|;
      } else if i == L - 1 {
        assert Len(S, i) > 0 && DataOffset(S[i]) + Width(S, i) <= |D|;
      }
    }
    forall i | 0 <= i < |S2| - 2
      ensures DataOffset(S2[i + 1]) == DataOffset(S2[i]) + Width(S2, i)
    {
      if i < L - 1 {
        assert S2[i + 1] == S[i + 1];
        assert DataOffset(S[i + 1]) == DataOffset(S[i]) + Width(S, i);
      }
    }
    assert Width(S2, L - 1) == Width(S, L - 1);
  }

  /** An append that lengthens the last run to offset n + 1: the compressed
      run repeats elem already, or the uncompressed run stores elem. */
  lemma AppendGrow<T>(seqs: seq<RleSeq>, data: seq<T>, n: int, elem: T, data2: seq<T>)
    requires Building(seqs, data, n) && |seqs| > 0 && n + 1 < 0x1_0000 && |data| < COMPRESSED_FLAG
    requires IsCompressed(seqs[|seqs| - 1]) ==> data[|data| - 1] == elem && data2 == data
    requires !IsCompressed(seqs[|seqs| - 1]) ==> data2 == data + [elem]
    ensures Building(seqs, data2, n + 1)
    ensures Expand(Close(seqs, n + 1), data2) == Expand(Close(seqs, n), data) + [elem]
  {
    var S, S2 := Close(seqs, n), Close(seqs, n + 1);
    var L := |seqs|;
    CloseFacts(seqs, n);
    CloseFacts(seqs, n + 1);
    BuildingFacts(seqs, data, n);
    GrowWellFormed(S, data, S2, data2, L);
    GrowLast(S, data, S2, data2, L, elem);
    assert data2[..|data|] == data;
    ExtendedBy(S, data, S2, data2, n, elem);
  }

  /** The element the lengthened last run adds is elem. */
  lemma GrowLast<T>(S: seq<RleSeq>, D: seq<T>, S2: seq<RleSeq>, D2: seq<T>, L: int, elem: T)
    requires WellFormed(S, D) && WellFormed(S2, D2) && L == |S| - 1 >= 1 && |S2| == |S|
    requires S2[L - 1] == S[L - 1] && Offset(S2[L]) == Total(S) + 1
    requires IsCompressed(S[L - 1]) ==> D2 == D && D[|D| - 1] == elem
    requires !IsCompressed(S[L - 1]) ==> D2 == D + [elem]
    ensures Total(S) < |Expand(S2, D2)| && Expand(S2, D2)[Total(S)] == elem
  {
    NextRun(S, D, L - 1);
    ValueAt(S2, D2, L - 1, Total(S) - Offset(S[L - 1]));
  }

  lemma GrowWellFormed<T>(S: seq<RleSeq>, D: seq<T>, S2: seq<RleSeq>, D2: seq<T>, L: int)
    requires WellFormed(S, D) && L == |S| - 1 >= 1 && |S2| == |S|
    requires forall i :: 0 <= i < L ==> S2[i] == S[i]
    requires Offset(S2[L]) == Total(S) + 1 && !IsCompressed(S2[L])
    requires IsCompressed(S[L - 1]) ==> D2 == D
    requires !IsCompressed(S[L - 1]) ==> |D2| == |D| + 1
    ensures WellFormed(S2, D2)
  {
    NextRun(S, D, L - 1);
    forall i | 0 <= i < |S2| - 1
      ensures Len(S2, i) > 0 && DataOffset(S2[i]) + Width(S2, i) <= |D2|
    {
      assert Len(S, i) > 0 && DataOffset(S[i]) + Width(S, i) <= |D|;
      if i < L - 1 {
        assert S2[i + 1] == S[i + 1];
      }
    }
    forall i | 0 <= i < |S2| - 2
      ensures DataOffset(S2[i + 1]) == DataOffset(S2[i]) + Width(S2, i)
    {
      assert S2[i + 1] == S[i + 1];
      assert DataOffset(S[i + 1]) == DataOffset(S[i]) + Width(S, i);
    }
  }

  /** rle_append, once the field holds n elements and offset is n: the
      field grows by exactly elem, and the building state is kept while
      offsets fit in 16 bits and data offsets in 15. */
  lemma {:induction false} AppendExtends<T>(seqs: seq<RleSeq>, data: seq<T>, n: int, elem: T)
    requires Building(seqs, data, n) && n + 1 < 0x1_0000 && |data| < COMPRESSED_FLAG
    ensures |seqs| == 0 || |data| > 0
    ensures Building(AppendTo(seqs, data, elem, n).0, AppendTo(seqs, data, elem, n).1, n + 1)
    ensures Expand(Close(AppendTo(seqs, data, elem, n).0, n + 1), AppendTo(seqs, data, elem, n).1) ==
            Expand(Close(seqs, n), data) + [elem]
  {
    BuildingFacts(seqs, data, n);
    if |seqs| == 0 {
      AppendFirst(elem);
      assert Expand(Close(seqs, n), data) == [];
    } else if IsCompressed(seqs[|seqs| - 1]) {
      if data[|data| - 1] != elem {
        AppendNewRun(seqs, data, n, elem, false);
      } else {
        AppendGrow(seqs, data, n, elem, data);
      }
    } else if data[|data| - 1] == elem {
      AppendNewRun(seqs, data, n, elem, true);
    } else {
      AppendGrow(seqs, data, n, elem, data + [elem]);
    }
  }

  /** One round of the sub-field constructor's loop: appending s[k] to the
      encoding of s[..k] gives an encoding of s[..k + 1], while the offsets
      fit in 16 bits and the data offsets in 15. */
  lemma AppendStep<T>(seqs: seq<RleSeq>, data: seq<T>, s: seq<T>, k: int)
    requires Building(seqs, data, k) && 0 <= k < |s| && k + 1 < 0x1_0000 && |data| < COMPRESSED_FLAG
    requires Expand(Close(seqs, k), data) == s[..k]
    ensures |seqs| == 0 || |data| > 0
    ensures Building(AppendTo(seqs, data, s[k], k).0, AppendTo(seqs, data, s[k], k).1, k + 1)
    ensures Expand(Close(AppendTo(seqs, data, s[k], k).0, k + 1), AppendTo(seqs, data, s[k], k).1) == s[..k + 1]
  {
    BuildingFacts(seqs, data, k);
    AppendExtends(seqs, data, k, s[k]);
    assert s[..k + 1] == s[..k] + [s[k]];
  }

  /** The header and data vectors of an RLE field (HermiteRLEField's seqs
      and data). */
  class RleField<T(==)> {
    var seqs: seq<RleSeq>
    var data: seq<T>

    constructor()
      ensures seqs == [] && data == []
    {
      seqs, data := [], [];
    }

    /** rle_append: the vectors change as AppendTo says; an element equal
        to the last one of a compressed run adds neither a header nor data. */
    method Append(elem: T, offset: int)
      requires |seqs| == 0 || |data| > 0
      requires |seqs| == 0 ==> offset == 0
      modifies this
      ensures (seqs, data) == AppendTo(old(seqs), old(data), elem, offset)
      ensures |old(seqs)| > 0 && IsCompressed(old(seqs)[|old(seqs)| - 1]) && old(data)[|old(data)| - 1] == elem ==>
        seqs == old(seqs) && data == old(data)
    {
      if |seqs| == 0 {
        seqs := [MakeSeq(0, 0, true)];
        data := data + [elem];
        return;
      }
      var lastData := data[|data| - 1];
      var lastSeq := seqs[|seqs| - 1];
      if IsCompressed(lastSeq) {
        if lastData != elem {
          seqs := seqs + [MakeSeq(offset, |data|, false)];
          data := data + [elem];
        }
      } else {
        if lastData == elem {
          seqs := seqs + [MakeSeq(offset, |data|, true)];
          data := data + [elem];
        } else {
          data := data + [elem];
        }
      }
    }

    /** finalize: the sentinel at the field's volume. */
    method Finalize(volume: int)
      modifies this
      ensures seqs == Close(old(seqs), volume) && data == old(data)
    {
      seqs := seqs + [MakeSeq(volume, 0, false)];
    }

    /** The sub-field constructor of HermiteRLEField: every element of s is
        appended at its index, then the field is finalized at |s|. The data
        vector never outgrows the field; the result is an encoding of s
        whenever the offsets fit in the 16-bit header field and the data
        vector stays below the compressed flag, so always for fields of
        fewer than 2^15 elements. */
    method AppendAll(s: seq<T>)
      requires seqs == [] && data == []
      modifies this
      ensures |data| <= |s|
      ensures |s| < 0x1_0000 && |data| < COMPRESSED_FLAG ==>
        WellFormed(seqs, data) && Total(seqs) == |s| && Expand(seqs, data) == s
    {
      var offseti := 0;
      CloseFacts([], 0);
      assert WellFormed(Close([], 0), data);
      while offseti < |s|
        invariant 0 <= offseti <= |s| && |data| <= offseti
        invariant |seqs| == 0 ==> offseti == 0 && data == []
        invariant |seqs| > 0 ==> |data| > 0
        invariant offseti < 0x1_0000 && |data| < COMPRESSED_FLAG ==>
          Building(seqs, data, offseti) && Expand(Close(seqs, offseti), data) == s[..offseti]
      {
        if offseti + 1 < 0x1_0000 && |data| < COMPRESSED_FLAG {
          AppendStep(seqs, data, s, offseti);
        }
        Append(s[offseti], offseti);
        offseti := offseti + 1;
      }
      ghost var before := seqs;
      Finalize(|s|);
      if |s| < 0x1_0000 && |data| < COMPRESSED_FLAG {
        CloseFacts(before, |s|);
        assert s[..|s|] == s;
      }
    }
  }
}
