/** Building and unpacking run-length encodings (Geometry/RLE.h): the
    generic run splitter, rle_compress into headers and data, rle_decompress
    and rle_append. */
module RleCompress {
  import opened Rle

  datatype RunType = Uncompressed | Compressed

  /** One call of the run callback: the run's kind and its element count. */
  datatype Run = Run(rt: RunType, num: int)

  predicate Constant<T(==)>(s: seq<T>)
  {
    forall k :: 0 <= k < |s| ==> s[k] == s[0]
  }

  /** field[k] differs from the element before it. */
  predicate Differs<T(==)>(field: seq<T>, k: int)
    requires 0 < k < |field|
  {
    field[k] != field[k - 1]
  }

  /** field[a..b] may form one run of kind rt: a compressed run repeats one
      element, an uncompressed run has no two equal neighbours. */
  predicate PieceOk<T(==)>(field: seq<T>, a: int, b: int, rt: RunType)
    requires 0 <= a <= b <= |field|
  {
    (rt == Compressed ==> forall k :: a <= k < b ==> field[k] == field[a]) &&
    (rt == Uncompressed ==> forall k :: a < k < b ==> Differs(field, k))
  }

  /** Where run j starts: the total size of the runs before it. */
  function Sum(runs: seq<Run>, j: int): int
    requires 0 <= j <= |runs|
  {
    if j == 0 then 0 else Sum(runs, j - 1) + runs[j - 1].num
  }

  /** How many data elements the encoder stores for one run. */
  function Stored(r: Run): int
  {
    if r.rt == Compressed then 1 else r.num
  }

  /** Where the data of run j starts. */
  function DataLen(runs: seq<Run>, j: int): int
    requires 0 <= j <= |runs|
  {
    if j == 0 then 0 else DataLen(runs, j - 1) + Stored(runs[j - 1])
  }

  /** The first j runs cut the front of field into consecutive non-empty
      pieces; a compressed piece repeats one element and an uncompressed
      piece has no two equal neighbours. */
  predicate SplitsUpTo<T(==)>(field: seq<T>, runs: seq<Run>, j: int)
    requires 0 <= j <= |runs|
  {
    j == 0 ||
    (SplitsUpTo(field, runs, j - 1) && 0 <= Sum(runs, j - 1) && 1 <= runs[j - 1].num && Sum(runs, j) <= |field| &&
     PieceOk(field, Sum(runs, j - 1), Sum(runs, j), runs[j - 1].rt))
  }

  /** runs cut all of field. */
  predicate Splits<T(==)>(field: seq<T>, runs: seq<Run>)
  {
    SplitsUpTo(field, runs, |runs|) && Sum(runs, |runs|) == |field|
  }

  /** The kind of run j: the splitter starts with a compressed run and
      then alternates. */
  function KindAt(j: int): RunType
  {
    if j % 2 == 0 then Compressed else Uncompressed
  }

  predicate Alternates(runs: seq<Run>)
  {
    forall j :: 0 <= j < |runs| ==> runs[j].rt == KindAt(j)
  }

  /** Sum, DataLen and SplitsUpTo only look at the first j runs. */
  lemma {:induction false} Agree<T>(field: seq<T>, r1: seq<Run>, r2: seq<Run>, j: int)
    requires 0 <= j <= |r1| && j <= |r2|
    requires forall k :: 0 <= k < j ==> r1[k] == r2[k]
    ensures Sum(r1, j) == Sum(r2, j) && DataLen(r1, j) == DataLen(r2, j)
    ensures SplitsUpTo(field, r1, j) <==> SplitsUpTo(field, r2, j)
  {
    if j > 0 {
      Agree(field, r1, r2, j - 1);
    }
  }

  /** Closing the open run appends it to the split. */
  lemma {:induction false} Close<T>(field: seq<T>, runs: seq<Run>, r: Run)
    requires SplitsUpTo(field, runs, |runs|) && 0 <= Sum(runs, |runs|)
    requires 1 <= r.num && Sum(runs, |runs|) + r.num <= |field|
    requires PieceOk(field, Sum(runs, |runs|), Sum(runs, |runs|) + r.num, r.rt)
    requires Alternates(runs) && r.rt == KindAt(|runs|)
    ensures SplitsUpTo(field, runs + [r], |runs + [r]|)
    ensures Sum(runs + [r], |runs + [r]|) == Sum(runs, |runs|) + r.num
    ensures Alternates(runs + [r])
    ensures KindAt(|runs + [r]|) != r.rt
  {
    Agree(field, runs, runs + [r], |runs|);
  }

  lemma PieceExtend<T>(field: seq<T>, a: int, i: int, rt: RunType)
    requires 0 <= a < i < |field| && PieceOk(field, a, i, rt)
    requires rt == Compressed ==> field[i] == field[a]
    requires rt == Uncompressed ==> field[i] != field[i - 1]
    ensures PieceOk(field, a, i + 1, rt)
  {
    if rt == Uncompressed {
      assert Differs(field, i);
    }
  }

  lemma PieceSingle<T>(field: seq<T>, i: int, rt: RunType)
    requires 0 <= i < |field|
    ensures PieceOk(field, i, i + 1, rt)
  {
  }

  /** The run splitter rle_compress(field, f): the calls it makes to f, in
      order. */
  method SplitRuns<T(==)>(field: seq<T>) returns (runs: seq<Run>)
    ensures Splits(field, runs)
    ensures Alternates(runs)
  {
    runs := [];
    if |field| == 0 {
      return;
    }
    var last := field[0];
    var num := 0;
    var rt := Compressed;
    var i := 0;
    ghost var start := 0;
    while i < |field|
      invariant 0 <= i <= |field| && start == i - num
      invariant i == 0 ==> num == 0 && runs == [] && rt == Compressed && last == field[0]
      invariant SplitsUpTo(field, runs, |runs|) && Sum(runs, |runs|) == start
      invariant i > 0 ==> 1 <= num <= i && PieceOk(field, start, i, rt)
      invariant i > 0 && rt == Compressed ==> last == field[start]
      invariant i > 0 && rt == Uncompressed ==> last == field[i - 1]
      invariant rt == KindAt(|runs|)
      invariant Alternates(runs)
    {
      if i == 0 {
        PieceSingle(field, 0, Compressed);
      } else if rt == Uncompressed {
        if field[i] == last {
          Close(field, runs, Run(rt, num));
          runs := runs + [Run(rt, num)];
          num := 0;
          start := i;
          rt := Compressed;
          PieceSingle(field, i, rt);
        } else {
          PieceExtend(field, start, i, rt);
          last := field[i];
        }
      } else {
        if field[i] != last {
          Close(field, runs, Run(rt, num));
          runs := runs + [Run(rt, num)];
          num := 0;
          start := i;
          last := field[i];
          rt := Uncompressed;
          PieceSingle(field, i, rt);
        } else {
          PieceExtend(field, start, i, rt);
        }
      }
      num := num + 1;
      i := i + 1;
    }
    Close(field, runs, Run(rt, num));
    runs := runs + [Run(rt, num)];
  }

  /** The header rle_compress writes for run i: the run starts at the
      total size of the runs before it, and its data after the data of the
      runs before it. */
  function HeaderOf(runs: seq<Run>, i: int): RleSeq
    requires 0 <= i < |runs|
  {
    MakeSeq(Sum(runs, i), DataLen(runs, i), runs[i].rt == Compressed)
  }

  /** seqs is the header list rle_compress writes for runs: one header per
      run and a sentinel at the field length n. */
  predicate Describes(seqs: seq<RleSeq>, runs: seq<Run>, n: int)
  {
    |seqs| == |runs| + 1 &&
    (forall i :: 0 <= i < |runs| ==> seqs[i] == HeaderOf(runs, i)) &&
    seqs[|runs|] == MakeSeq(n, 0, false)
  }

  /** The data rle_compress stores for run j: the first element of a
      compressed piece, every element of an uncompressed one (nothing for a
      run that does not lie inside field). */
  function Piece<T(==)>(field: seq<T>, runs: seq<Run>, j: int): seq<T>
    requires 0 <= j < |runs|
  {
    var a, b := Sum(runs, j), Sum(runs, j + 1);
    if !(0 <= a < b <= |field|) then []
    else if runs[j].rt == Compressed then [field[a]] else field[a..b]
  }

  function Pieces<T(==)>(field: seq<T>, runs: seq<Run>): seq<seq<T>>
  {
    seq(|runs|, j requires 0 <= j < |runs| => Piece(field, runs, j))
  }

  /** The data rle_compress writes: the pieces of all runs, in order. */
  function Payload<T(==)>(field: seq<T>, runs: seq<Run>): seq<T>
  {
    Flatten(Pieces(field, runs))
  }

  lemma PieceLength<T>(field: seq<T>, runs: seq<Run>, j: int)
    requires 0 <= j < |runs| && 0 <= Sum(runs, j) < Sum(runs, j + 1) <= |field|
    ensures |Piece(field, runs, j)| == Stored(runs[j])
  {
  }

  /** The data written for the first j runs of a split is DataLen long. */
  lemma {:induction false} PiecesPrefixLength<T>(field: seq<T>, runs: seq<Run>, j: int)
    requires 0 <= j <= |runs| && SplitsUpTo(field, runs, j)
    ensures |Flatten(Pieces(field, runs)[..j])| == DataLen(runs, j) <= Sum(runs, j)
  {
    var ps := Pieces(field, runs);
    if j == 0 {
      assert ps[..0] == [];
    } else {
      PiecesPrefixLength(field, runs, j - 1);
      FlattenSnoc(ps, j - 1);
      PieceLength(field, runs, j - 1);
    }
  }

  /** The data of a whole split is DataLen long. */
  lemma {:induction false} PayloadLength<T>(field: seq<T>, runs: seq<Run>)
    requires SplitsUpTo(field, runs, |runs|)
    ensures |Payload(field, runs)| == DataLen(runs, |runs|)
  {
    PiecesPrefixLength(field, runs, |runs|);
    assert Pieces(field, runs)[..|runs|] == Pieces(field, runs);
  }

  lemma {:induction false} SumGrows<T>(field: seq<T>, runs: seq<Run>, i: int, j: int)
    requires 0 <= i <= j <= |runs| && SplitsUpTo(field, runs, j)
    ensures 0 <= Sum(runs, i) <= Sum(runs, j) <= |field| && SplitsUpTo(field, runs, i)
    ensures DataLen(runs, i) <= DataLen(runs, j)
    decreases j - i
  {
    if i < j {
      SumGrows(field, runs, i, j - 1);
    }
  }

  /** What the headers rle_compress writes say, while every offset fits in
      the 15 bits of a data offset. */
  lemma {:induction false} HeaderAt<T>(field: seq<T>, runs: seq<Run>, seqs: seq<RleSeq>, i: int)
    requires Splits(field, runs) && |field| < COMPRESSED_FLAG && Describes(seqs, runs, |field|)
    requires 0 <= i <= |runs|
    ensures SplitsUpTo(field, runs, i) && 0 <= DataLen(runs, i) <= Sum(runs, i) <= |field|
    ensures Offset(seqs[i]) == Sum(runs, i)
    ensures i < |runs| ==> DataOffset(seqs[i]) == DataLen(runs, i)
    ensures i < |runs| ==> (IsCompressed(seqs[i]) <==> runs[i].rt == Compressed)
    ensures i == |runs| ==> !IsCompressed(seqs[i])
  {
    SumGrows(field, runs, i, |runs|);
    PiecesPrefixLength(field, runs, i);
    if i < |runs| {
      MakeSeqFields(Sum(runs, i), DataLen(runs, i), runs[i].rt == Compressed);
    } else {
      MakeSeqFields(|field|, 0, false);
    }
  }

  /** What a header list for runs says about each run, with no 16-bit
      arithmetic left in it. */
  predicate Headed(seqs: seq<RleSeq>, runs: seq<Run>, n: int)
  {
    |seqs| == |runs| + 1 && Offset(seqs[|runs|]) == n && !IsCompressed(seqs[|runs|]) &&
    forall i {:trigger seqs[i]} :: 0 <= i < |runs| ==>
      Offset(seqs[i]) == Sum(runs, i) && DataOffset(seqs[i]) == DataLen(runs, i) &&
      (IsCompressed(seqs[i]) <==> runs[i].rt == Compressed)
  }

  lemma {:induction false} DescribesHeaded<T>(field: seq<T>, runs: seq<Run>, seqs: seq<RleSeq>)
    requires Splits(field, runs) && |field| < COMPRESSED_FLAG && Describes(seqs, runs, |field|)
    ensures Headed(seqs, runs, |field|)
  {
    forall i | 0 <= i < |runs|
      ensures Offset(seqs[i]) == Sum(runs, i) && DataOffset(seqs[i]) == DataLen(runs, i)
      ensures IsCompressed(seqs[i]) <==> runs[i].rt == Compressed
    {
      HeaderAt(field, runs, seqs, i);
    }
    HeaderAt(field, runs, seqs, |runs|);
  }

  /** Run i of the encoding: its length, and its stored width. */
  lemma {:induction false} EncodedRun<T>(field: seq<T>, runs: seq<Run>, seqs: seq<RleSeq>, i: int)
    requires Splits(field, runs) && Headed(seqs, runs, |field|)
    requires 0 <= i < |runs|
    ensures SplitsUpTo(field, runs, i + 1)
    ensures Len(seqs, i) == runs[i].num >= 1
    ensures Width(seqs, i) == Stored(runs[i])
    ensures DataOffset(seqs[i]) == DataLen(runs, i)
    ensures DataOffset(seqs[i]) + Width(seqs, i) == DataLen(runs, i + 1) <= DataLen(runs, |runs|)
  {
    SumGrows(field, runs, i + 1, |runs|);
  }

  /** The headers and data rle_compress writes are well formed. */
  lemma {:induction false} EncodedWellFormed<T>(field: seq<T>, runs: seq<Run>, seqs: seq<RleSeq>)
    requires Splits(field, runs) && Headed(seqs, runs, |field|)
    ensures WellFormed(seqs, Payload(field, runs))
    ensures Total(seqs) == |field|
  {
    var data := Payload(field, runs);
    PayloadLength(field, runs);
    forall i | 0 <= i < |seqs| - 1
      ensures Len(seqs, i) > 0 && DataOffset(seqs[i]) + Width(seqs, i) <= |data|
    {
      EncodedRun(field, runs, seqs, i);
    }
    forall i | 0 <= i < |seqs| - 2
      ensures DataOffset(seqs[i + 1]) == DataOffset(seqs[i]) + Width(seqs, i)
    {
      EncodedRun(field, runs, seqs, i);
      EncodedRun(field, runs, seqs, i + 1);
    }
    if |runs| > 0 {
      EncodedRun(field, runs, seqs, |runs| - 1);
    }
  }

  lemma RepeatConstant<T>(x: T, s: seq<T>)
    requires |s| > 0 && Constant(s) && x == s[0]
    ensures Repeat(x, |s|) == s
  {
  }

  /** A run whose stored data is the piece the encoder writes for whole
      stands for whole. */
  lemma RunFromPiece<T>(seqs: seq<RleSeq>, data: seq<T>, i: int, piece: seq<T>, whole: seq<T>)
    requires Indexable(seqs, data) && 0 <= i < |seqs| - 1 && |whole| == Len(seqs, i)
    requires DataOffset(seqs[i]) + |piece| <= |data| && data[DataOffset(seqs[i])..DataOffset(seqs[i]) + |piece|] == piece
    requires IsCompressed(seqs[i]) ==> |whole| > 0 && piece == [whole[0]] && Constant(whole)
    requires !IsCompressed(seqs[i]) ==> piece == whole
    ensures RunValues(seqs, data, i) == whole
  {
    if IsCompressed(seqs[i]) {
      assert data[DataOffset(seqs[i])] == piece[0];
      RepeatConstant(whole[0], whole);
    }
  }

  /** A run whose header points at the piece the encoder wrote for run i
      of runs stands for that piece of field. */
  lemma RunValuesOfPiece<T>(field: seq<T>, runs: seq<Run>, seqs: seq<RleSeq>, data: seq<T>, i: int)
    requires 0 <= i < |runs| && SplitsUpTo(field, runs, i + 1)
    requires Indexable(seqs, data) && i < |seqs| - 1
    requires Len(seqs, i) == runs[i].num && DataOffset(seqs[i]) == DataLen(runs, i)
    requires IsCompressed(seqs[i]) <==> runs[i].rt == Compressed
    requires DataLen(runs, i) + Stored(runs[i]) <= |data|
    requires data[DataLen(runs, i)..DataLen(runs, i) + Stored(runs[i])] == Piece(field, runs, i)
    ensures 0 <= Sum(runs, i) <= Sum(runs, i + 1) <= |field|
    ensures RunValues(seqs, data, i) == field[Sum(runs, i)..Sum(runs, i + 1)]
  {
    SumGrows(field, runs, i, i + 1);
    PieceLength(field, runs, i);
    var piece := Piece(field, runs, i);
    var whole := field[Sum(runs, i)..Sum(runs, i + 1)];
    if runs[i].rt == Compressed {
      assert Constant(whole) by {
        forall k | 0 <= k < |whole|
          ensures whole[k] == whole[0]
        {
          assert whole[k] == field[Sum(runs, i) + k];
        }
      }
    }
    RunFromPiece(seqs, data, i, piece, whole);
  }

  /** The headers and data rle_compress writes for a split of field are
      well formed and expand back to field, while the field is short enough
      for every data offset to fit in 15 bits. */
  lemma {:induction false} Roundtrip<T>(field: seq<T>, runs: seq<Run>, seqs: seq<RleSeq>)
    requires Splits(field, runs) && |field| < COMPRESSED_FLAG && Describes(seqs, runs, |field|)
    ensures WellFormed(seqs, Payload(field, runs))
    ensures Total(seqs) == |field|
    ensures Expand(seqs, Payload(field, runs)) == field
  {
    DescribesHeaded(field, runs, seqs);
    EncodedWellFormed(field, runs, seqs);
    var data := Payload(field, runs);
    forall i | 0 <= i < |seqs| - 1
      ensures CoversRun(seqs, data, field, i)
    {
      EncodedCoversRun(field, runs, seqs, i);
    }
    ExpandOfCover(seqs, data, field);
  }

  /** Run i of the encoding stands for piece i of the field. */
  lemma EncodedCoversRun<T>(field: seq<T>, runs: seq<Run>, seqs: seq<RleSeq>, i: int)
    requires Splits(field, runs) && Headed(seqs, runs, |field|) && 0 <= i < |runs|
    requires WellFormed(seqs, Payload(field, runs))
    ensures CoversRun(seqs, Payload(field, runs), field, i)
  {
    var data, ps := Payload(field, runs), Pieces(field, runs);
    EncodedRun(field, runs, seqs, i);
    PiecesPrefixLength(field, runs, i);
    PieceLength(field, runs, i);
    FlattenSlice(ps, i);
    RunValuesOfPiece(field, runs, seqs, data, i);
  }

  /** rle_compress(seqs, data, s): a first pass over the runs counts the
      headers and the data elements, a second writes one header per run, the
      data of each run, and a sentinel header at the field length. */
  method Compress<T(0,==)>(s: seq<T>) returns (seqs: array<RleSeq>, data: array<T>)
    ensures fresh(seqs) && fresh(data)
    ensures exists runs ::
      (Splits(s, runs) && Alternates(runs) && Describes(seqs[..], runs, |s|) && data[..] == Payload(s, runs))
    ensures |s| < COMPRESSED_FLAG ==>
      WellFormed(seqs[..], data[..]) && Total(seqs[..]) == |s| && Expand(seqs[..], data[..]) == s
  {
    var runs := SplitRuns(s);
    var dataLen, seqsLen := CountRuns(runs);
    SumGrows(s, runs, 0, |runs|);
    data := new T[dataLen];
    seqs := new RleSeq[seqsLen + 1];
    WritePass(seqs, data, s, runs);
    CompressResult(s, runs, seqs[..], data[..]);
  }

  /** What the two passes leave behind is the encoding of s. */
  lemma CompressResult<T>(s: seq<T>, runs: seq<Run>, seqs: seq<RleSeq>, data: seq<T>)
    requires Splits(s, runs) && Describes(seqs, runs, |s|)
    requires data == Flatten(Pieces(s, runs)[..|runs|])
    ensures data == Payload(s, runs)
    ensures |s| < COMPRESSED_FLAG ==> WellFormed(seqs, data) && Total(seqs) == |s| && Expand(seqs, data) == s
  {
    assert Pieces(s, runs)[..|runs|] == Pieces(s, runs);
    if |s| < COMPRESSED_FLAG {
      Roundtrip(s, runs, seqs);
    }
  }

  /** The second pass of rle_compress: the callback writes each run's
      header and data, then the sentinel header is written. */
  method WritePass<T>(seqs: array<RleSeq>, data: array<T>, s: seq<T>, runs: seq<Run>)
    requires Splits(s, runs) && seqs as object != data as object
    requires data.Length == DataLen(runs, |runs|) && seqs.Length == |runs| + 1
    modifies seqs, data
    ensures Describes(seqs[..], runs, |s|)
    ensures data[..] == Flatten(Pieces(s, runs)[..|runs|])
  {
    SumGrows(s, runs, 0, |runs|);
    var srci, datai, offset := 0, 0, 0;
    var j := 0;
    while j < |runs|
      invariant 0 <= j <= |runs| && srci == offset == Sum(runs, j) && datai == DataLen(runs, j)
      invariant Written(seqs[..], data[..], s, runs, j, datai)
    {
      WriteStep(s, runs, j);
      WriteRun(seqs, data, s, runs, j, offset, datai, srci);
      datai := datai + Stored(runs[j]);
      srci := srci + runs[j].num;
      offset := offset + runs[j].num;
      j := j + 1;
    }
    WriteSentinel(seqs, data, s, runs, datai);
  }

  /** The last step of rle_compress: the sentinel header at the field
      length, after every run's header. */
  method WriteSentinel<T>(seqs: array<RleSeq>, data: array<T>, s: seq<T>, runs: seq<Run>, datai: int)
    requires seqs.Length == |runs| + 1 && datai == data.Length && seqs as object != data as object
    requires Written(seqs[..], data[..], s, runs, |runs|, datai)
    modifies seqs
    ensures Describes(seqs[..], runs, |s|)
    ensures data[..] == Flatten(Pieces(s, runs)[..|runs|])
  {
    seqs[|runs|] := MakeSeq(|s|, 0, false);
    assert data[..] == data[..datai];
  }

  /** The state after the second pass has handled runs[..j]: their headers
      are in place and the data holds their pieces, datai elements in all. */
  ghost predicate Written<T>(seqs: seq<RleSeq>, d: seq<T>, s: seq<T>, runs: seq<Run>, j: int, datai: int)
    requires 0 <= j <= |runs|
  {
    j <= |seqs| && 0 <= datai <= |d| &&
    (forall i :: 0 <= i < j ==> seqs[i] == HeaderOf(runs, i)) &&
    d[..datai] == Flatten(Pieces(s, runs)[..j])
  }

  /** The second pass's callback for run j: the header, then the data. */
  method WriteRun<T>(seqs: array<RleSeq>, data: array<T>, s: seq<T>, runs: seq<Run>, j: int,
                     offset: int, datai: int, srci: int)
    requires Splits(s, runs) && 0 <= j < |runs| && j < seqs.Length && seqs as object != data as object
    requires srci == offset == Sum(runs, j) && datai == DataLen(runs, j)
    requires datai + Stored(runs[j]) <= data.Length
    requires Written(seqs[..], data[..], s, runs, j, datai)
    modifies seqs, data
    ensures Written(seqs[..], data[..], s, runs, j + 1, datai + Stored(runs[j]))
  {
    WriteStep(s, runs, j);
    seqs[j] := MakeSeq(offset, datai, runs[j].rt == Compressed);
    CopyPiece(data, s, runs, j, datai, srci, Flatten(Pieces(s, runs)[..j]));
    FlattenSnoc(Pieces(s, runs), j);
  }

  /** The first pass of rle_compress: one header per run, and one data
      element per compressed run or num per uncompressed run. */
  method CountRuns(runs: seq<Run>) returns (dataLen: int, seqsLen: int)
    ensures dataLen == DataLen(runs, |runs|) && seqsLen == |runs|
  {
    dataLen, seqsLen := 0, 0;
    var j := 0;
    while j < |runs|
      invariant 0 <= j <= |runs| && seqsLen == j && dataLen == DataLen(runs, j)
    {
      if runs[j].rt == Uncompressed {
        seqsLen := seqsLen + 1;
        dataLen := dataLen + runs[j].num;
      } else {
        seqsLen := seqsLen + 1;
        dataLen := dataLen + 1;
      }
      j := j + 1;
    }
  }

  /** The data half of the second pass's callback for run j: the first
      element of a compressed run, every element of an uncompressed one,
      appended after what the earlier runs stored. */
  method CopyPiece<T>(data: array<T>, s: seq<T>, runs: seq<Run>, j: int, datai: int, srci: int,
                      ghost before: seq<T>)
    requires Splits(s, runs) && 0 <= j < |runs|
    requires srci == Sum(runs, j) && datai == DataLen(runs, j) && 0 <= datai <= datai + Stored(runs[j]) <= data.Length
    requires data[..datai] == before
    modifies data
    ensures data[..datai + Stored(runs[j])] == before + Piece(s, runs, j)
  {
    PieceShape(s, runs, j);
    var num := runs[j].num;
    if runs[j].rt == Uncompressed {
      CopyRange(data, s, datai, srci, num);
    } else {
      data[datai] := s[srci];
      assert data[datai..datai + 1] == [s[srci]];
      assert data[..datai] == old(data[..datai]);
    }
    ExtendPrefix(data[..], datai, Stored(runs[j]), before, Piece(s, runs, j));
  }

  /** Run j's piece is its first element when compressed and all of its
      elements otherwise, and lies inside the field. */
  lemma PieceShape<T>(s: seq<T>, runs: seq<Run>, j: int)
    requires Splits(s, runs) && 0 <= j < |runs|
    ensures 1 <= runs[j].num && 0 <= Sum(runs, j) && Sum(runs, j) + runs[j].num <= |s|
    ensures runs[j].rt == Compressed ==> Stored(runs[j]) == 1 && Piece(s, runs, j) == [s[Sum(runs, j)]]
    ensures runs[j].rt == Uncompressed ==>
      Stored(runs[j]) == runs[j].num && Piece(s, runs, j) == s[Sum(runs, j)..Sum(runs, j) + runs[j].num]
  {
    SumGrows(s, runs, j + 1, |runs|);
  }

  /** The loop of the uncompressed case: copies s[srci..srci + num] to
      data[datai..], leaving data[..datai] alone. */
  method CopyRange<T>(data: array<T>, s: seq<T>, datai: int, srci: int, num: int)
    requires 0 <= datai && 0 <= srci && 0 <= num && datai + num <= data.Length && srci + num <= |s|
    modifies data
    ensures data[..datai] == old(data[..datai])
    ensures data[datai..datai + num] == s[srci..srci + num]
  {
    var i := 0;
    while i < num
      invariant 0 <= i <= num
      invariant data[..datai] == old(data[..datai])
      invariant data[datai..datai + i] == s[srci..srci + i]
    {
      data[datai + i] := s[srci + i];
      SliceGrow(data[..], s, datai, srci, i);
      i := i + 1;
    }
  }

  lemma ExtendPrefix<T>(d: seq<T>, k: int, n: int, before: seq<T>, piece: seq<T>)
    requires 0 <= k && 0 <= n && k + n <= |d| && d[..k] == before && d[k..k + n] == piece
    ensures d[..k + n] == before + piece
  {
    assert d[..k + n] == d[..k] + d[k..k + n];
  }

  lemma SliceGrow<T>(d: seq<T>, s: seq<T>, a: int, b: int, i: int)
    requires 0 <= a && 0 <= b && 0 <= i && a + i < |d| && b + i < |s|
    requires d[a..a + i] == s[b..b + i] && d[a + i] == s[b + i]
    ensures d[a..a + i + 1] == s[b..b + i + 1]
  {
    assert d[a..a + i + 1] == d[a..a + i] + [d[a + i]];
    assert s[b..b + i + 1] == s[b..b + i] + [s[b + i]];
  }

  /** Where run j's header and data go in the second pass, and how far the
      counters move. */
  lemma WriteStep<T>(s: seq<T>, runs: seq<Run>, j: int)
    requires Splits(s, runs) && 0 <= j < |runs|
    ensures 1 <= runs[j].num && 0 <= Sum(runs, j) < Sum(runs, j + 1) <= |s|
    ensures 0 <= DataLen(runs, j) && DataLen(runs, j + 1) == DataLen(runs, j) + Stored(runs[j]) <= DataLen(runs, |runs|)
  {
    SumGrows(s, runs, j + 1, |runs|);
    SumGrows(s, runs, 0, j);
  }
}
