/** GUI/Font: a bitmap font loaded from the file fontgen writes. Glyphs are
    found through an encoding table sorted by code point; a font file opens
    with the four magic bytes "NGFN". */
module Fonts {
  import opened Wrappers
  import ByteIO
  import FontGen
  import StableSort

  type Encoding = FontGen.Encoding

  /** The order lower_bound relies on (operator< compares code points). */
  predicate SortedByCode(enc: seq<Encoding>)
  {
    forall i, j :: 0 <= i < j < |enc| ==> enc[i].unicode <= enc[j].unicode
  }

  /** The reference lookup: the glyph index of the first entry for r, read
      front to back. */
  function Find(enc: seq<Encoding>, r: int): (g: Option<int>)
  {
    if enc == [] then None
    else if enc[0].unicode == r then Some(enc[0].index)
    else Find(enc[1..], r)
  }

  /** The reference lookup finds nothing exactly when no entry is for r,
      and otherwise the index of the first entry for r. */
  lemma {:induction false} FindSpec(enc: seq<Encoding>, r: int)
    ensures Find(enc, r).None? <==> forall i :: 0 <= i < |enc| ==> enc[i].unicode != r
    ensures Find(enc, r).Some? ==>
      exists k :: 0 <= k < |enc| && enc[k].unicode == r &&
        Find(enc, r).value == enc[k].index && forall j :: 0 <= j < k ==> enc[j].unicode != r
  {
    if enc != [] && enc[0].unicode != r {
      FindSpec(enc[1..], r);
      if Find(enc, r).Some? {
        var k :| 0 <= k < |enc[1..]| && enc[1..][k].unicode == r &&
          Find(enc[1..], r).value == enc[1..][k].index &&
          forall j :: 0 <= j < k ==> enc[1..][j].unicode != r;
        assert enc[k + 1].unicode == r && forall j :: 0 <= j < k + 1 ==> enc[j].unicode != r;
      }
    } else if enc != [] {
      assert enc[0].unicode == r;
    }
  }

  /** Entries below r can be skipped. */
  lemma {:induction false} FindSkip(enc: seq<Encoding>, lo: int, r: int)
    requires 0 <= lo <= |enc|
    requires forall j :: 0 <= j < lo ==> enc[j].unicode != r
    ensures Find(enc, r) == Find(enc[lo..], r)
    decreases lo
  {
    if lo > 0 {
      assert enc[1..][lo - 1..] == enc[lo..];
      FindSkip(enc[1..], lo - 1, r);
    }
  }

  /** Font::find_glyph: lower_bound for the first entry whose code point is
      not below r, then the entry's glyph if its code point is r. A null
      pointer is None, a pointer to glyphs[index] is Some(index). */
  method FindGlyph(enc: seq<Encoding>, r: int) returns (g: Option<int>)
    requires SortedByCode(enc)
    ensures g == Find(enc, r)
  {
    var lo, hi := 0, |enc|;
    while lo < hi
      invariant 0 <= lo <= hi <= |enc|
      invariant forall j :: 0 <= j < lo ==> enc[j].unicode < r
      invariant forall j :: hi <= j < |enc| ==> enc[j].unicode >= r
    {
      var mid := lo + (hi - lo) / 2;
      if enc[mid].unicode < r {
        lo := mid + 1;
      } else {
        hi := mid;
      }
    }
    FindSkip(enc, lo, r);
    if lo == |enc| {
      return None;
    }
    if enc[lo].unicode != r {
      FindSpec(enc[lo..], r);
      return None;
    }
    g := Some(enc[lo].index);
  }

  /** On the table fontgen writes, a found glyph was drawn for the code
      point asked for. */
  lemma FoundGlyphIsForCode(drawn: seq<FontGen.DrawnGlyph>, r: int)
    ensures var out := StableSort.SortSpec(FontGen.CodeBefore, drawn);
      var table := FontGen.EncodingTable(out);
      SortedByCode(table) &&
      (Find(table, r).Some? ==>
        0 <= Find(table, r).value < |out| && out[Find(table, r).value].glyph.symbol as int == r)
  {
    var out := StableSort.SortSpec(FontGen.CodeBefore, drawn);
    var table := FontGen.EncodingTable(out);
    FontGen.EncodingTableSorted(drawn);
    FindSpec(table, r);
  }

  // ---------------------------------------------------------------------
  // The magic check of Font_FromFile.

  /** "NGFN" */
  const MAGIC: seq<ByteIO.byte> := [0x4E, 0x47, 0x46, 0x4E]

  /** Font_FromFile's first test: fewer than four bytes, or four bytes
      other than the magic, is an error; otherwise the rest of the file is
      read after the magic. */
  function CheckMagic(data: seq<ByteIO.byte>): (r: Option<seq<ByteIO.byte>>)
    ensures r.None? <==> |data| < 4 || data[..4] != MAGIC
    ensures r.Some? ==> data == MAGIC + r.value
  {
    if |data| < 4 || data[..4] != MAGIC then None
    else
      assert data == data[..4] + data[4..];
      Some(data[4..])
  }

  /** A file that starts with the magic passes the check with the rest
      left to read. */
  lemma MagicRoundTrip(body: seq<ByteIO.byte>)
    ensures CheckMagic(MAGIC + body) == Some(body)
  {
    assert (MAGIC + body)[..4] == MAGIC;
    assert (MAGIC + body)[4..] == body;
  }
}
