/** Run-length encoding of voxel fields (Geometry/RLE.h): a field is stored
    as a list of sequence headers (RLESeq) and a data vector. Each header
    gives the logical offset where its run starts and where its data starts;
    a compressed run stores one element repeated up to the next header's
    offset, an uncompressed run stores every element. The last header is a
    sentinel whose offset is the field length. */
module Rle {
  type uint16 = x: int | 0 <= x < 0x1_0000

  /** Bit 15 of the stored data offset marks a compressed run. */
  const COMPRESSED_FLAG: int := 0x8000

  /** RLESeq: both fields are 16-bit; the data offset carries the flag. */
  datatype RleSeq = RleSeq(mOffset: uint16, mDataOffset: uint16)

  /** The RLESeq constructor: the arguments are truncated to 16 bits as the
      C++ conversion to uint16_t does, then the flag is OR'd in. */
  function MakeSeq(offset: int, dataOffset: int, compressed: bool): RleSeq
  {
    var d := dataOffset % 0x1_0000;
    RleSeq(offset % 0x1_0000, if compressed && d < COMPRESSED_FLAG then d + COMPRESSED_FLAG else d)
  }

  /** A header built from an offset that fits in 16 bits and a data offset
      that fits in 15 reads both back, and the flag reads back as given. */
  lemma MakeSeqFields(offset: int, dataOffset: int, compressed: bool)
    ensures 0 <= offset < 0x1_0000 ==> Offset(MakeSeq(offset, dataOffset, compressed)) == offset
    ensures 0 <= dataOffset < COMPRESSED_FLAG ==>
      DataOffset(MakeSeq(offset, dataOffset, compressed)) == dataOffset &&
      IsCompressed(MakeSeq(offset, dataOffset, compressed)) == compressed
    ensures compressed ==> IsCompressed(MakeSeq(offset, dataOffset, compressed))
  {
  }

  function Offset(q: RleSeq): int
  {
    q.mOffset
  }

  /** data_offset(): the stored value with bit 15 masked off. */
  function DataOffset(q: RleSeq): (d: int)
    ensures 0 <= d < COMPRESSED_FLAG
    ensures d == q.mDataOffset || d == q.mDataOffset - COMPRESSED_FLAG
  {
    q.mDataOffset % COMPRESSED_FLAG
  }

  /** is_compressed(): bit 15 of the stored data offset. */
  predicate IsCompressed(q: RleSeq)
  {
    q.mDataOffset >= COMPRESSED_FLAG
  }

  /** The number of logical elements of run i (up to the next header). */
  function Len(seqs: seq<RleSeq>, i: int): int
    requires 0 <= i < |seqs| - 1
  {
    Offset(seqs[i + 1]) - Offset(seqs[i])
  }

  /** The number of data elements run i stores. */
  function Width(seqs: seq<RleSeq>, i: int): int
    requires 0 <= i < |seqs| - 1
  {
    if IsCompressed(seqs[i]) then 1 else Len(seqs, i)
  }

  /** Offsets strictly increase and every run's data lies inside data. */
  predicate Indexable<T>(seqs: seq<RleSeq>, data: seq<T>)
  {
    |seqs| >= 1 &&
    (forall i :: 0 <= i < |seqs| - 1 ==> Len(seqs, i) > 0) &&
    (forall i {:trigger Width(seqs, i)} :: 0 <= i < |seqs| - 1 ==> DataOffset(seqs[i]) + Width(seqs, i) <= |data|)
  }

  /** The layout rle_compress produces and the iterator and the decompressor
      rely on: offsets start at 0, the data of each run follows the data of
      the run before it, the data vector is used up exactly, and the
      sentinel is not compressed. */
  predicate WellFormed<T>(seqs: seq<RleSeq>, data: seq<T>)
  {
    Indexable(seqs, data) &&
    Offset(seqs[0]) == 0 &&
    !IsCompressed(seqs[|seqs| - 1]) &&
    (forall i {:trigger Width(seqs, i)} :: 0 <= i < |seqs| - 2 ==> DataOffset(seqs[i + 1]) == DataOffset(seqs[i]) + Width(seqs, i)) &&
    (if |seqs| == 1 then |data| == 0
     else DataOffset(seqs[0]) == 0 && DataOffset(seqs[|seqs| - 2]) + Width(seqs, |seqs| - 2) == |data|)
  }

  /** The field length: the sentinel's offset. */
  function Total(seqs: seq<RleSeq>): int
    requires |seqs| >= 1
  {
    Offset(seqs[|seqs| - 1])
  }

  function Repeat<T>(x: T, n: nat): (r: seq<T>)
    ensures |r| == n
    ensures forall k :: 0 <= k < n ==> r[k] == x
  {
    if n == 0 then [] else Repeat(x, n - 1) + [x]
  }

  /** The logical elements of run i. */
  function RunValues<T>(seqs: seq<RleSeq>, data: seq<T>, i: int): (v: seq<T>)
    requires Indexable(seqs, data) && 0 <= i < |seqs| - 1
    ensures |v| == Len(seqs, i)
  {
    var d := DataOffset(seqs[i]);
    assert d + Width(seqs, i) <= |data|;
    if IsCompressed(seqs[i]) then Repeat(data[d], Len(seqs, i)) else data[d .. d + Len(seqs, i)]
  }

  /** The concatenation of a list of pieces, in order. */
  function Flatten<T>(ps: seq<seq<T>>): seq<T>
  {
    if |ps| == 0 then [] else Flatten(ps[..|ps| - 1]) + ps[|ps| - 1]
  }

  lemma {:induction false} FlattenSnoc<T>(ps: seq<seq<T>>, i: int)
    requires 0 <= i < |ps|
    ensures Flatten(ps[..i + 1]) == Flatten(ps[..i]) + ps[i]
  {
    assert ps[..i + 1][..i] == ps[..i];
  }

  /** The pieces before i flatten to a prefix of the whole. */
  lemma {:induction false} FlattenPrefix<T>(ps: seq<seq<T>>, i: int)
    requires 0 <= i <= |ps|
    ensures |Flatten(ps[..i])| <= |Flatten(ps)|
    ensures Flatten(ps[..i]) == Flatten(ps)[..|Flatten(ps[..i])|]
    decreases |ps|
  {
    if i < |ps| {
      var init := ps[..|ps| - 1];
      assert init[..i] == ps[..i];
      FlattenPrefix(init, i);
      PrefixTrans(Flatten(ps[..i]), Flatten(init), ps[|ps| - 1], Flatten(ps));
    } else {
      assert ps[..i] == ps;
      FullSlice(Flatten(ps));
    }
  }

  /** Piece i sits in the flattening right after the pieces before it. */
  lemma {:induction false} FlattenSlice<T>(ps: seq<seq<T>>, i: int)
    requires 0 <= i < |ps|
    ensures |Flatten(ps[..i])| + |ps[i]| <= |Flatten(ps)|
    ensures Flatten(ps)[|Flatten(ps[..i])|..|Flatten(ps[..i])| + |ps[i]|] == ps[i]
  {
    FlattenSnoc(ps, i);
    FlattenPrefix(ps, i + 1);
    var e, f := Flatten(ps[..i]), Flatten(ps);
    assert f[..|e| + |ps[i]|] == e + ps[i];
    assert f[|e|..|e| + |ps[i]|] == f[..|e| + |ps[i]|][|e|..];
  }

  lemma {:induction false} FlattenAt<T>(ps: seq<seq<T>>, i: int, j: int)
    requires 0 <= i < |ps| && 0 <= j < |ps[i]|
    ensures |Flatten(ps[..i])| + j < |Flatten(ps)|
    ensures Flatten(ps)[|Flatten(ps[..i])| + j] == ps[i][j]
  {
    FlattenSlice(ps, i);
    var e, f := Flatten(ps[..i]), Flatten(ps);
    assert f[|e|..|e| + |ps[i]|][j] == f[|e| + j];
  }

  lemma PrefixTrans<T>(a: seq<T>, b: seq<T>, piece: seq<T>, c: seq<T>)
    requires |a| <= |b| && a == b[..|a|] && c == b + piece
    ensures |a| <= |c| && a == c[..|a|]
  {
    assert c[..|a|] == b[..|a|];
  }

  lemma FullSlice<T>(e: seq<T>)
    ensures e[..|e|] == e
  {
  }

  /** The logical elements of every run, run by run. */
  function Runs<T>(seqs: seq<RleSeq>, data: seq<T>): seq<seq<T>>
    requires Indexable(seqs, data)
  {
    seq(|seqs| - 1, i requires 0 <= i < |seqs| - 1 => RunValues(seqs, data, i))
  }

  /** The field an encoding stands for. */
  function Expand<T>(seqs: seq<RleSeq>, data: seq<T>): (field: seq<T>)
    requires Indexable(seqs, data)
    ensures |field| == Total(seqs) - Offset(seqs[0])
  {
    ExpandLength(seqs, data);
    Flatten(Runs(seqs, data))
  }

  /** The runs before k cover the offsets from the first header to header k. */
  lemma {:induction false} RunsPrefixLength<T>(seqs: seq<RleSeq>, data: seq<T>, k: int)
    requires Indexable(seqs, data) && 0 <= k < |seqs|
    ensures |Flatten(Runs(seqs, data)[..k])| == Offset(seqs[k]) - Offset(seqs[0])
  {
    if k > 0 {
      RunsPrefixLength(seqs, data, k - 1);
      FlattenSnoc(Runs(seqs, data), k - 1);
    }
  }

  /** An encoding expands to as many elements as its offsets span. */
  lemma {:induction false} ExpandLength<T>(seqs: seq<RleSeq>, data: seq<T>)
    requires Indexable(seqs, data)
    ensures |Flatten(Runs(seqs, data))| == Total(seqs) - Offset(seqs[0])
  {
    var ps := Runs(seqs, data);
    RunsPrefixLength(seqs, data, |seqs| - 1);
    assert ps[..|seqs| - 1] == ps;
  }

  /** Element j of run i sits at the run's offset plus j. */
  lemma {:induction false} ExpandAt<T>(seqs: seq<RleSeq>, data: seq<T>, i: int, j: int)
    requires Indexable(seqs, data) && 0 <= i < |seqs| - 1 && 0 <= j < Len(seqs, i)
    ensures Offset(seqs[0]) <= Offset(seqs[i])
    ensures Offset(seqs[i]) - Offset(seqs[0]) + j < |Expand(seqs, data)|
    ensures Expand(seqs, data)[Offset(seqs[i]) - Offset(seqs[0]) + j] == RunValues(seqs, data, i)[j]
  {
    RunsPrefixLength(seqs, data, i);
    FlattenAt(Runs(seqs, data), i, j);
  }

  /** Run i stands for the slice of field between its offset and the next
      one. */
  ghost predicate CoversRun<T>(seqs: seq<RleSeq>, data: seq<T>, field: seq<T>, i: int)
    requires Indexable(seqs, data) && 0 <= i < |seqs| - 1
  {
    0 < Len(seqs, i) && Offset(seqs[i + 1]) <= |field| &&
    RunValues(seqs, data, i) == field[Offset(seqs[i])..Offset(seqs[i + 1])]
  }

  /** Every run stands for its slice of field. */
  ghost predicate Covers<T>(seqs: seq<RleSeq>, data: seq<T>, field: seq<T>)
  {
    Indexable(seqs, data) &&
    forall i :: 0 <= i < |seqs| - 1 ==> CoversRun(seqs, data, field, i)
  }

  /** When every run stands for the matching slice of field, the first k
      runs expand to the prefix of field they cover. */
  lemma {:induction false} ExpandOfPieces<T>(seqs: seq<RleSeq>, data: seq<T>, field: seq<T>, k: int)
    requires Covers(seqs, data, field) && Offset(seqs[0]) == 0 && 0 <= k < |seqs|
    ensures Offset(seqs[k]) <= |field|
    ensures Flatten(Runs(seqs, data)[..k]) == field[..Offset(seqs[k])]
  {
    var ps := Runs(seqs, data);
    if k == 0 {
      assert ps[..0] == [];
    } else {
      assert CoversRun(seqs, data, field, k - 1);
      ExpandOfPieces(seqs, data, field, k - 1);
      FlattenSnoc(ps, k - 1);
      JoinSlices(field, Offset(seqs[k - 1]), Offset(seqs[k]), Flatten(ps[..k - 1]), ps[k - 1]);
    }
  }

  /** An encoding whose runs stand for consecutive slices of field, from
      offset 0 to the field length, expands to field. */
  lemma {:induction false} ExpandOfCover<T>(seqs: seq<RleSeq>, data: seq<T>, field: seq<T>)
    requires Covers(seqs, data, field) && Offset(seqs[0]) == 0 && Total(seqs) == |field|
    ensures Expand(seqs, data) == field
  {
    var ps := Runs(seqs, data);
    ExpandOfPieces(seqs, data, field, |seqs| - 1);
    assert ps[..|seqs| - 1] == ps;
    FullSlice(field);
  }

  lemma JoinSlices<T>(field: seq<T>, a: int, b: int, e: seq<T>, v: seq<T>)
    requires 0 <= a <= b <= |field| && e == field[..a] && v == field[a..b]
    ensures e + v == field[..b]
  {
    assert field[..a] + field[a..b] == field[..b];
  }

  lemma {:induction false} OffsetsIncrease<T>(seqs: seq<RleSeq>, data: seq<T>, i: int, j: int)
    requires Indexable(seqs, data) && 0 <= i <= j < |seqs|
    ensures Offset(seqs[i]) + (j - i) <= Offset(seqs[j])
    decreases j - i
  {
    if i < j {
      assert Len(seqs, i) > 0;
      OffsetsIncrease(seqs, data, i + 1, j);
    }
  }
}
