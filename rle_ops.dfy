/** The readers of an RLE encoding (Geometry/RLE.h): rle_decompress, which
    expands a whole encoding into an output slice; RLEIterator, which walks
    the logical elements run by run; and rle_find, which positions an
    iterator at a logical offset by binary search over the headers. The
    C++ pointers into the header and data arrays are indices here. */
module RleOps {
  import opened Rle

  /** Element j of run i of a well-formed encoding is the run's one stored
      element when compressed and its j-th stored element otherwise. */
  lemma ValueAt<T>(seqs: seq<RleSeq>, data: seq<T>, i: int, j: int)
    requires WellFormed(seqs, data) && 0 <= i < |seqs| - 1 && 0 <= j < Len(seqs, i)
    ensures Offset(seqs[i]) + j < |Expand(seqs, data)|
    ensures DataOffset(seqs[i]) + Width(seqs, i) <= |data|
    ensures IsCompressed(seqs[i]) ==> Expand(seqs, data)[Offset(seqs[i]) + j] == data[DataOffset(seqs[i])]
    ensures !IsCompressed(seqs[i]) ==> Expand(seqs, data)[Offset(seqs[i]) + j] == data[DataOffset(seqs[i]) + j]
  {
    ExpandAt(seqs, data, i, j);
    RunValuesAt(seqs, data, i, j);
  }

  lemma RunValuesAt<T>(seqs: seq<RleSeq>, data: seq<T>, i: int, j: int)
    requires Indexable(seqs, data) && 0 <= i < |seqs| - 1 && 0 <= j < Len(seqs, i)
    ensures DataOffset(seqs[i]) + Width(seqs, i) <= |data|
    ensures IsCompressed(seqs[i]) ==> RunValues(seqs, data, i)[j] == data[DataOffset(seqs[i])]
    ensures !IsCompressed(seqs[i]) ==> RunValues(seqs, data, i)[j] == data[DataOffset(seqs[i]) + j]
  {
    assert DataOffset(seqs[i]) + Width(seqs, i) <= |data|;
  }

  /** In a well-formed encoding the data of run i + 1 starts where the data
      of run i ends, and the run is not empty. */
  lemma NextRun<T>(seqs: seq<RleSeq>, data: seq<T>, i: int)
    requires WellFormed(seqs, data) && 0 <= i < |seqs| - 1
    ensures Offset(seqs[i]) < Offset(seqs[i + 1]) <= Total(seqs)
    ensures i + 1 < |seqs| - 1 ==> DataOffset(seqs[i + 1]) == DataOffset(seqs[i]) + Width(seqs, i)
  {
    assert Len(seqs, i) > 0;
    OffsetsIncrease(seqs, data, i + 1, |seqs| - 1);
    if i + 1 < |seqs| - 1 {
      assert DataOffset(seqs[i + 1]) == DataOffset(seqs[i]) + Width(seqs, i);
    }
  }

  /** rle_decompress: out receives the whole field. The output slice must
      be exactly as long as the field (the caller passes the volume). */
  method Decompress<T>(out: array<T>, seqs: seq<RleSeq>, data: seq<T>)
    requires WellFormed(seqs, data) && out.Length == Total(seqs)
    modifies out
    ensures out[..] == Expand(seqs, data)
  {
    ExpandLength(seqs, data);
    var dsti, seqsi, datai := 0, 0, 0;
    while dsti < out.Length
      invariant 0 <= seqsi < |seqs| && dsti == Offset(seqs[seqsi]) <= out.Length
      invariant seqsi < |seqs| - 1 ==> datai == DataOffset(seqs[seqsi])
      invariant forall k :: 0 <= k < dsti ==> out[k] == Expand(seqs, data)[k]
      decreases out.Length - dsti
    {
      NextRun(seqs, data, seqsi);
      if IsCompressed(seqs[seqsi]) {
        dsti := FillRun(out, seqs, data, seqsi, dsti, datai);
        seqsi := seqsi + 1;
        datai := datai + 1;
      } else {
        dsti, datai := CopyRun(out, seqs, data, seqsi, dsti, datai);
        seqsi := seqsi + 1;
      }
    }
    assert out[..] == Expand(seqs, data);
  }

  /** The compressed case of rle_decompress: the run's one stored element
      is written up to the next header's offset. */
  method FillRun<T>(out: array<T>, seqs: seq<RleSeq>, data: seq<T>, seqsi: int, dsti: int, datai: int)
    returns (stop: int)
    requires WellFormed(seqs, data) && 0 <= seqsi < |seqs| - 1 && IsCompressed(seqs[seqsi])
    requires dsti == Offset(seqs[seqsi]) && datai == DataOffset(seqs[seqsi]) && out.Length == Total(seqs)
    requires dsti <= out.Length
    requires forall k :: 0 <= k < dsti ==> out[k] == Expand(seqs, data)[k]
    modifies out
    ensures stop == Offset(seqs[seqsi + 1]) <= out.Length
    ensures forall k :: 0 <= k < stop ==> out[k] == Expand(seqs, data)[k]
  {
    NextRun(seqs, data, seqsi);
    ValueAt(seqs, data, seqsi, 0);
    stop := Offset(seqs[seqsi + 1]);
    var d := dsti;
    while d < stop
      invariant dsti <= d <= stop
      invariant forall k :: 0 <= k < d ==> out[k] == Expand(seqs, data)[k]
    {
      ValueAt(seqs, data, seqsi, d - dsti);
      out[d] := data[datai];
      d := d + 1;
    }
  }

  /** The uncompressed case of rle_decompress: the run's stored elements
      are copied one by one, and datai moves past them. */
  method CopyRun<T>(out: array<T>, seqs: seq<RleSeq>, data: seq<T>, seqsi: int, dsti: int, datai: int)
    returns (stop: int, datai': int)
    requires WellFormed(seqs, data) && 0 <= seqsi < |seqs| - 1 && !IsCompressed(seqs[seqsi])
    requires dsti == Offset(seqs[seqsi]) && datai == DataOffset(seqs[seqsi]) && out.Length == Total(seqs)
    requires dsti <= out.Length
    requires forall k :: 0 <= k < dsti ==> out[k] == Expand(seqs, data)[k]
    modifies out
    ensures stop == Offset(seqs[seqsi + 1]) <= out.Length && datai' == datai + Width(seqs, seqsi)
    ensures forall k :: 0 <= k < stop ==> out[k] == Expand(seqs, data)[k]
  {
    NextRun(seqs, data, seqsi);
    ValueAt(seqs, data, seqsi, 0);
    stop := Offset(seqs[seqsi + 1]);
    var d := dsti;
    datai' := datai;
    while d < stop
      invariant dsti <= d <= stop && datai' == datai + (d - dsti)
      invariant forall k :: 0 <= k < d ==> out[k] == Expand(seqs, data)[k]
    {
      ValueAt(seqs, data, seqsi, d - dsti);
      out[d] := data[datai'];
      d := d + 1;
      datai' := datai' + 1;
    }
  }

  /** The binary search of rle_find: the header whose run holds offset, or
      the sentinel when offset is the field length. */
  method FindRun<T>(seqs: seq<RleSeq>, data: seq<T>, offset: int) returns (first: int)
    requires WellFormed(seqs, data) && 0 <= offset <= Total(seqs)
    ensures 0 <= first < |seqs| && Offset(seqs[first]) <= offset
    ensures first < |seqs| - 1 ==> offset < Offset(seqs[first + 1])
    ensures first == |seqs| - 1 <==> offset == Total(seqs)
  {
    first := 0;
    var last := |seqs| - 1;
    while first < last
      invariant 0 <= first <= last <= |seqs| - 1
      invariant first == 0 || Offset(seqs[first - 1]) < offset
      invariant offset <= Offset(seqs[last])
    {
      var mid := first + (last - first) / 2;
      if Offset(seqs[mid]) < offset {
        first := mid + 1;
      } else {
        last := mid;
      }
    }
    if Offset(seqs[first]) > offset {
      first := first - 1;
    }
    if first < |seqs| - 1 {
      NextRun(seqs, data, first);
    }
  }

  /** rle_find: an iterator positioned at logical offset. */
  method Find<T>(seqs: seq<RleSeq>, data: seq<T>, offset: int) returns (it: RleIterator<T>)
    requires WellFormed(seqs, data) && 0 <= offset <= Total(seqs)
    ensures fresh(it) && it.seqs == seqs && it.data == data
    ensures it.Valid() && it.Pos() == offset
  {
    var first := FindRun(seqs, data, offset);
    it := new RleIterator(seqs, data);
    it.si := first;
    it.di := DataOffset(seqs[first]);
    it.n := offset - Offset(seqs[first]);
  }

  /** RLEIterator: si and di stand for the seqs and data pointers, n for
      the position inside the current run. */
  class RleIterator<T> {
    const seqs: seq<RleSeq>
    const data: seq<T>
    var si: int
    var di: int
    var n: int

    /** The iterator points into a run (n inside it, di at its data) or
        rests on the sentinel at the end of the field. */
    ghost predicate Valid()
      reads this
    {
      WellFormed(seqs, data) && 0 <= si < |seqs| &&
      (si < |seqs| - 1 ==> di == DataOffset(seqs[si]) && 0 <= n < Len(seqs, si)) &&
      (si == |seqs| - 1 ==> n == 0)
    }

    /** The logical offset the iterator stands at. */
    function Pos(): int
      reads this
      requires 0 <= si < |seqs|
    {
      Offset(seqs[si]) + n
    }

    /** The RLEIterator(data, seqs) constructor: the start of the field. */
    constructor(seqs: seq<RleSeq>, data: seq<T>)
      requires WellFormed(seqs, data)
      ensures this.seqs == seqs && this.data == data
      ensures Valid() && Pos() == 0
    {
      this.seqs := seqs;
      this.data := data;
      si, di, n := 0, 0, 0;
    }

    /** The position never passes the field length, and stands before it
        exactly when the iterator is inside a run. */
    lemma PosBound()
      requires Valid()
      ensures 0 <= Pos() <= Total(seqs)
      ensures Pos() < Total(seqs) <==> si < |seqs| - 1
    {
      if si < |seqs| - 1 {
        NextRun(seqs, data, si);
      }
    }

    /** operator*: the element at the iterator. */
    function Get(): (x: T)
      reads this
      requires Valid() && si < |seqs| - 1
      ensures Pos() < Total(seqs) && x == Expand(seqs, data)[Pos()]
    {
      ValueAt(seqs, data, si, n);
      if IsCompressed(seqs[si]) then data[di] else data[di + n]
    }

    /** can_skip: how many elements from the current one on repeat it, which
        is the rest of a compressed run and 0 otherwise. */
    function CanSkip(): (r: int)
      reads this
      requires Valid()
    {
      if IsCompressed(seqs[si]) then
        var cur := Offset(seqs[si]);
        var next := Offset(seqs[si + 1]);
        next - (cur + n)
      else 0
    }

    /** The elements CanSkip counts all equal the current one. */
    lemma CanSkipSame()
      requires Valid()
      ensures 0 <= CanSkip() && Pos() + CanSkip() <= Total(seqs)
      ensures forall k :: Pos() <= k < Pos() + CanSkip() ==> Expand(seqs, data)[k] == Expand(seqs, data)[Pos()]
    {
      PosBound();
      if IsCompressed(seqs[si]) {
        NextRun(seqs, data, si);
        forall k | Pos() <= k < Pos() + CanSkip()
          ensures Expand(seqs, data)[k] == Expand(seqs, data)[Pos()]
        {
          ValueAt(seqs, data, si, k - Offset(seqs[si]));
          ValueAt(seqs, data, si, n);
        }
      }
    }

    /** Moving from the last element of a run to the start of the next one. */
    method NextSeq()
      requires WellFormed(seqs, data) && 0 <= si < |seqs| - 1 && di == DataOffset(seqs[si]) && n == Len(seqs, si)
      modifies this
      ensures si == old(si) + 1 && n == 0 && di == old(di) + Width(seqs, old(si))
      ensures Valid() && Pos() == old(Pos())
    {
      NextRun(seqs, data, si);
      var cur := Offset(seqs[si]);
      var next := Offset(seqs[si + 1]);
      di := di + if IsCompressed(seqs[si]) then 1 else next - cur;
      si := si + 1;
      n := 0;
    }

    /** skip_one: one element forward. */
    method SkipOne()
      requires Valid() && si < |seqs| - 1
      modifies this
      ensures Valid() && Pos() == old(Pos()) + 1
    {
      var cur := Offset(seqs[si]);
      var next := Offset(seqs[si + 1]);
      if cur + n < next {
        n := n + 1;
      }
      if cur + n == next {
        NextSeq();
      }
    }

    /** skip: nskip elements forward, a run at a time. */
    method Skip(nskip: int)
      requires Valid() && 0 <= nskip && Pos() + nskip <= Total(seqs)
      modifies this
      ensures Valid() && Pos() == old(Pos()) + nskip
    {
      var left := nskip;
      while left != 0
        invariant Valid() && 0 <= left && Pos() + left == old(Pos()) + nskip <= Total(seqs)
        decreases left
      {
        PosBound();
        var cur := Offset(seqs[si]);
        var next := Offset(seqs[si + 1]);
        var canskip := next - (cur + n);
        var willskip := if canskip < left then canskip else left;
        left := left - willskip;
        n := n + willskip;
        if cur + n == next {
          NextSeq();
        }
      }
    }

    /** read: the next out.Length elements go to out, and the iterator
        moves past them. */
    method Read(out: array<T>)
      requires Valid() && Pos() < Total(seqs) && Pos() + out.Length <= Total(seqs)
      modifies this, out
      ensures Valid() && Pos() == old(Pos()) + out.Length
      ensures forall k :: 0 <= k < out.Length ==> out[k] == Expand(seqs, data)[old(Pos()) + k]
    {
      ghost var start := Pos();
      PosBound();
      var dsti := 0;
      while true
        invariant Valid() && si < |seqs| - 1 && 0 <= dsti <= out.Length && Pos() == start + dsti
        invariant start + out.Length <= Total(seqs)
        invariant forall k :: 0 <= k < dsti ==> out[k] == Expand(seqs, data)[start + k]
        decreases |seqs| - si
      {
        var length := Offset(seqs[si + 1]) - Offset(seqs[si]);
        dsti := ReadRun(out, dsti, start);
        if n == length {
          NextSeq();
        }
        if dsti == out.Length {
          return;
        }
        PosBound();
      }
    }

    /** The inner loops of read: elements of the current run until either
        the run or out is used up. */
    method ReadRun(out: array<T>, dsti: int, ghost start: int) returns (dsti': int)
      requires Valid() && si < |seqs| - 1 && 0 <= dsti <= out.Length && Pos() == start + dsti
      requires 0 <= start && start + out.Length <= Total(seqs)
      requires forall k :: 0 <= k < dsti ==> out[k] == Expand(seqs, data)[start + k]
      modifies this`n, out
      ensures dsti <= dsti' <= out.Length && n == old(n) + (dsti' - dsti) && n <= Len(seqs, si)
      ensures dsti' == out.Length || n == Len(seqs, si)
      ensures forall k :: 0 <= k < dsti' ==> out[k] == Expand(seqs, data)[start + k]
    {
      if IsCompressed(seqs[si]) {
        dsti' := ReadSame(out, dsti, start);
      } else {
        dsti' := ReadEach(out, dsti, start);
      }
    }

    /** The compressed inner loop of read: the run's one stored element. */
    method ReadSame(out: array<T>, dsti: int, ghost start: int) returns (dsti': int)
      requires Valid() && si < |seqs| - 1 && IsCompressed(seqs[si]) && 0 <= dsti <= out.Length && Pos() == start + dsti
      requires 0 <= start && start + out.Length <= Total(seqs)
      requires forall k :: 0 <= k < dsti ==> out[k] == Expand(seqs, data)[start + k]
      modifies this`n, out
      ensures dsti <= dsti' <= out.Length && n == old(n) + (dsti' - dsti) && n <= Len(seqs, si)
      ensures dsti' == out.Length || n == Len(seqs, si)
      ensures forall k :: 0 <= k < dsti' ==> out[k] == Expand(seqs, data)[start + k]
    {
      var length := Offset(seqs[si + 1]) - Offset(seqs[si]);
      dsti' := dsti;
      while dsti' < out.Length && n < length
        invariant dsti <= dsti' <= out.Length && n == old(n) + (dsti' - dsti) && 0 <= n <= length
        invariant forall k :: 0 <= k < dsti' ==> out[k] == Expand(seqs, data)[start + k]
      {
        ValueAt(seqs, data, si, n);
        out[dsti'] := data[di];
        dsti' := dsti' + 1;
        n := n + 1;
      }
    }

    /** The uncompressed inner loop of read: the run's stored elements from
        position n on. */
    method ReadEach(out: array<T>, dsti: int, ghost start: int) returns (dsti': int)
      requires Valid() && si < |seqs| - 1 && !IsCompressed(seqs[si]) && 0 <= dsti <= out.Length && Pos() == start + dsti
      requires 0 <= start && start + out.Length <= Total(seqs)
      requires forall k :: 0 <= k < dsti ==> out[k] == Expand(seqs, data)[start + k]
      modifies this`n, out
      ensures dsti <= dsti' <= out.Length && n == old(n) + (dsti' - dsti) && n <= Len(seqs, si)
      ensures dsti' == out.Length || n == Len(seqs, si)
      ensures forall k :: 0 <= k < dsti' ==> out[k] == Expand(seqs, data)[start + k]
    {
      var length := Offset(seqs[si + 1]) - Offset(seqs[si]);
      dsti' := dsti;
      while dsti' < out.Length && n < length
        invariant dsti <= dsti' <= out.Length && n == old(n) + (dsti' - dsti) && 0 <= n <= length
        invariant forall k :: 0 <= k < dsti' ==> out[k] == Expand(seqs, data)[start + k]
      {
        ValueAt(seqs, data, si, n);
        out[dsti'] := data[di + n];
        dsti' := dsti' + 1;
        n := n + 1;
      }
    }
  }
}
