// A fixed-length bit array stored as 32-bit words (source/Core/BitArray.h, BitArray.cpp).
// A word is modelled as its 32 bits, least significant first: bit b of a word is `w[b]`,
// so `1 << b` is OneBit(b) and `w & mask`, `w | mask`, `w ^ mask` act bit by bit.
module BitArrays {

  type Word = w: seq<bool> | |w| == 32 witness seq(32, _ => false)

  /** The word 0. */
  const ZERO: Word := seq(32, _ => false)
  /** The word 0xFFFFFFFF. */
  const ONES: Word := seq(32, _ => true)

  /** `1 << b` */
  function OneBit(b: int): Word
    requires 0 <= b < 32
  {
    seq(32, k => k == b)
  }

  /** The word with bits [off, off+cnt) set: `(1 << cnt) - 1 << off`, or 0xFFFFFFFF when cnt is 32. */
  function Mask(cnt: int, off: int): Word
    requires 0 < cnt && 0 <= off && off + cnt <= 32
  {
    if cnt == 32 then ONES else seq(32, k => off <= k < off + cnt)
  }

  function OrWord(a: Word, b: Word): Word { seq(32, k requires 0 <= k < 32 => a[k] || b[k]) }
  function AndWord(a: Word, b: Word): Word { seq(32, k requires 0 <= k < 32 => a[k] && b[k]) }
  function XorWord(a: Word, b: Word): Word { seq(32, k requires 0 <= k < 32 => a[k] != b[k]) }
  function NotWord(a: Word): Word { seq(32, k requires 0 <= k < 32 => !a[k]) }

  /** The mask for `to_set` bits from `bit_offset` has exactly those bits set. */
  lemma MaskBits(cnt: int, off: int)
    requires 0 < cnt && 0 <= off && off + cnt <= 32
    ensures forall k :: 0 <= k < 32 ==> (Mask(cnt, off)[k] <==> off <= k < off + cnt)
  {
  }

  /** `w | (1 << b)` sets bit b only; `w & ~(1 << b)` clears bit b only. */
  lemma OneBitUpdate(w: Word, b: int)
    requires 0 <= b < 32
    ensures OrWord(w, OneBit(b)) == w[b := true]
    ensures AndWord(w, NotWord(OneBit(b))) == w[b := false]
    ensures (AndWord(w, OneBit(b)) != ZERO) == w[b]
  {
    assert OrWord(w, OneBit(b)) == w[b := true];
    assert AndWord(w, NotWord(OneBit(b))) == w[b := false];
    if w[b] {
      assert AndWord(w, OneBit(b))[b] != ZERO[b];
    } else {
      assert AndWord(w, OneBit(b)) == ZERO;
    }
  }

  /** Number of words needed for `len` bits: the ceiling of len/32. */
  function WordCount(len: int): (n: int)
    requires 0 <= len
    ensures 0 <= n && len <= 32 * n < len + 32
  {
    (len + 31) / 32
  }

  /** The first `len` bits held by `words`, bit i being bit i%32 of word i/32. */
  function BitsOf(words: seq<Word>, len: int): (bits: seq<bool>)
    requires 0 <= len <= 32 * |words|
    ensures |bits| == len
  {
    seq(len, i requires 0 <= i < len => words[i / 32][i % 32])
  }

  /** The words after OR-ing bits [beg, end) into `before`: bit b of word w is set iff it was
      or 32w+b lies in the range. Bits past the array's length (the padding) are covered too. */
  ghost predicate RangeOred(before: seq<Word>, after: seq<Word>, beg: int, end: int)
  {
    |after| == |before| &&
    forall w, b :: 0 <= w < |after| && 0 <= b < 32 ==>
      after[w][b] == (before[w][b] || beg <= 32 * w + b < end)
  }

  lemma RangeOredBits(before: seq<Word>, after: seq<Word>, len: int, beg: int, end: int)
    requires 0 <= len <= 32 * |before| && RangeOred(before, after, beg, end)
    ensures forall i :: 0 <= i < len ==> BitsOf(after, len)[i] == (BitsOf(before, len)[i] || beg <= i < end)
  {
    forall i | 0 <= i < len
      ensures BitsOf(after, len)[i] == (BitsOf(before, len)[i] || beg <= i < end)
    {
      assert 32 * (i / 32) + i % 32 == i;
    }
  }

  /** The three word-wise operators `&=`, `|=` and `^=`. */
  datatype WordOp = AndOp | OrOp | XorOp

  function BitOp(op: WordOp, x: bool, y: bool): bool
  {
    match op
    case AndOp => x && y
    case OrOp => x || y
    case XorOp => x != y
  }

  function Apply(op: WordOp, a: Word, b: Word): Word
  {
    match op
    case AndOp => AndWord(a, b)
    case OrOp => OrWord(a, b)
    case XorOp => XorWord(a, b)
  }

  /** Each word operator acts on every bit position independently. */
  lemma ApplyBits(op: WordOp, a: Word, b: Word)
    ensures forall k :: 0 <= k < 32 ==> Apply(op, a, b)[k] == BitOp(op, a[k], b[k])
  {
  }

  /** The words of `a` after `op` with `b` over the first `n` words. */
  function Combine(op: WordOp, a: seq<Word>, b: seq<Word>, n: int): (c: seq<Word>)
    requires 0 <= n <= |a| && n <= |b|
    ensures |c| == |a|
    ensures forall i :: 0 <= i < n ==> c[i] == Apply(op, a[i], b[i])
    ensures forall i :: n <= i < |a| ==> c[i] == a[i]
  {
    seq(|a|, i requires 0 <= i < |a| => if i < n then Apply(op, a[i], b[i]) else a[i])
  }

  /** The bits of `a` after a word-wise `op` with `b` over the first n words: a bit in one of
      those words takes op of the two bits at that position, every later bit is unchanged. */
  lemma CombineBits(op: WordOp, a: seq<Word>, b: seq<Word>, n: int, len: int)
    requires 0 <= n <= |a| && n <= |b| && 0 <= len <= 32 * |a|
    ensures forall i :: 0 <= i < len ==>
      BitsOf(Combine(op, a, b, n), len)[i] ==
        if i < 32 * n then BitOp(op, BitsOf(a, len)[i], b[i / 32][i % 32]) else BitsOf(a, len)[i]
  {
    forall i | 0 <= i < len && i < 32 * n
      ensures BitsOf(Combine(op, a, b, n), len)[i] == BitOp(op, BitsOf(a, len)[i], b[i / 32][i % 32])
    {
      ApplyBits(op, a[i / 32], b[i / 32]);
    }
  }

  /** p lies in one of `rows` rows of `w` bits, row r starting at bit start + r * stride. */
  ghost predicate InRows(p: int, start: int, w: int, rows: int, stride: int)
  {
    exists r :: 0 <= r < rows && start + r * stride <= p < start + r * stride + w
  }

  class BitArray {
    /** m_data */
    var data: array<Word>
    /** m_len */
    var len: int

    ghost predicate Valid()
      reads this
    {
      0 <= len && data.Length == WordCount(len)
    }

    /** The logical contents: the first len bits. */
    ghost function Bits(): (bits: seq<bool>)
      reads this, data
      requires Valid()
      ensures |bits| == len
    {
      BitsOf(data[..], len)
    }

    /** `BitArray(n)`: n zero bits. */
    constructor (n: int)
      requires n >= 0
      ensures Valid() && fresh(data)
      ensures len == n && Bits() == seq(n, _ => false)
      ensures forall w :: 0 <= w < data.Length ==> data[w] == ZERO
    {
      len := n;
      data := new Word[WordCount(n)](_ => ZERO);
    }

    /** `uint32_length()`: the ceiling of len/32. */
    function Uint32Length(): (n: int)
      reads this
      requires Valid()
      ensures n == data.Length && len <= 32 * n < len + 32
    {
      (len + 31) / 32
    }

    /** `test_bit(idx)`: the word at idx/32 masked with `1 << idx%32`. */
    function TestBit(idx: int): (b: bool)
      reads this, data
      requires Valid() && 0 <= idx < len
      ensures b == Bits()[idx]
    {
      OneBitUpdate(data[idx / 32], idx % 32);
      AndWord(data[idx / 32], OneBit(idx % 32)) != ZERO
    }

    /** `set()`: every word becomes 0xFFFFFFFF, so every bit tests true. */
    method Set()
      requires Valid()
      modifies data
      ensures Valid() && Bits() == seq(len, _ => true)
      ensures forall w :: 0 <= w < data.Length ==> data[w] == ONES
    {
      var i := 0;
      var n := Uint32Length();
      while i < n
        invariant 0 <= i <= n && forall w :: 0 <= w < i ==> data[w] == ONES
      {
        data[i] := ONES;
        i := i + 1;
      }
    }

    /** `clear()`: every word becomes 0, so every bit tests false. */
    method Clear()
      requires Valid()
      modifies data
      ensures Valid() && Bits() == seq(len, _ => false)
      ensures forall w :: 0 <= w < data.Length ==> data[w] == ZERO
    {
      var i := 0;
      var n := Uint32Length();
      while i < n
        invariant 0 <= i <= n && forall w :: 0 <= w < i ==> data[w] == ZERO
      {
        data[i] := ZERO;
        i := i + 1;
      }
    }

    /** `set_bit(idx)`: bit idx becomes true, nothing else changes. */
    method SetBit(idx: int)
      requires Valid() && 0 <= idx < len
      modifies data
      ensures Valid() && Bits() == old(Bits())[idx := true]
      ensures data[..] == old(data[..])[idx / 32 := old(data[idx / 32])[idx % 32 := true]]
    {
      var offset := idx / 32;
      OneBitUpdate(data[offset], idx % 32);
      data[offset] := OrWord(data[offset], OneBit(idx % 32));
      SingleBitChange(old(data[..]), data[..], idx, true);
    }

    /** `clear_bit(idx)`: bit idx becomes false, nothing else changes. */
    method ClearBit(idx: int)
      requires Valid() && 0 <= idx < len
      modifies data
      ensures Valid() && Bits() == old(Bits())[idx := false]
      ensures data[..] == old(data[..])[idx / 32 := old(data[idx / 32])[idx % 32 := false]]
    {
      var offset := idx / 32;
      OneBitUpdate(data[offset], idx % 32);
      data[offset] := AndWord(data[offset], NotWord(OneBit(idx % 32)));
      SingleBitChange(old(data[..]), data[..], idx, false);
    }

    /** `set_bit_range(beg, end)`: the bits in [beg, end) become true, every other bit is
        unchanged. A first partial word from beg % 32, then whole or trailing words. */
    method SetBitRange(beg: int, end: int)
      requires Valid() && 0 <= beg <= end <= len
      modifies data
      ensures Valid() && RangeOred(old(data[..]), data[..], beg, end)
      ensures forall i :: 0 <= i < len ==> Bits()[i] == (old(Bits())[i] || beg <= i < end)
    {
      var n := end - beg;
      if n == 0 {
        RangeOredBits(old(data[..]), data[..], len, beg, end);
        return;
      }
      var offset := beg / 32;
      var bitOffset := beg % 32;
      var avail := 32 - bitOffset;
      var toSet := if n < avail then n else avail;
      OrMask(offset, toSet, bitOffset);
      offset := offset + 1;
      n := n - toSet;
      while n > 0
        invariant 0 <= n <= end - beg && 0 <= offset <= data.Length
        invariant n > 0 ==> end - n == 32 * offset
        invariant RangeOred(old(data[..]), data[..], beg, end - n)
      {
        toSet := if n < 32 then n else 32;
        OrMask(offset, toSet, 0);
        offset := offset + 1;
        n := n - toSet;
      }
      RangeOredBits(old(data[..]), data[..], len, beg, end);
    }

    /** One `m_data[offset++] |= mask` step: ORs bits [off, off+cnt) of word `offset`. */
    method OrMask(offset: int, cnt: int, off: int)
      requires 0 <= offset < data.Length && 0 < cnt && 0 <= off && off + cnt <= 32
      modifies data
      ensures data[..] == old(data[..])[offset := OrWord(old(data[offset]), Mask(cnt, off))]
      ensures forall b :: 0 <= b < 32 ==> data[offset][b] == (old(data[offset][b]) || off <= b < off + cnt)
    {
      MaskBits(cnt, off);
      data[offset] := OrWord(data[offset], Mask(cnt, off));
    }

    /** `set_bit_range_2d(x, y, w, h, img_w)`: sets h rows of w bits, row r starting at
        bit y * img_w + x + r * img_w, leaving every other bit unchanged. Each row must be a valid
        range, which set_bit_range checks. */
    method SetBitRange2D(x: int, y: int, w: int, h: int, imgW: int)
      requires Valid()
      requires forall r :: 0 <= r < h ==> 0 <= w && 0 <= y * imgW + x + r * imgW && y * imgW + x + r * imgW + w <= len
      modifies data
      ensures Valid()
      ensures forall p :: 0 <= p < len ==> Bits()[p] == (old(Bits())[p] || InRows(p, y * imgW + x, w, h, imgW))
    {
      var offset := imgW * y + x;
      ghost var start := offset;
      var i := 0;
      while i < h
        invariant Valid() && 0 <= i && (h >= 0 ==> i <= h) && (h < 0 ==> i == 0)
        invariant offset == start + i * imgW
        invariant forall p :: 0 <= p < len ==> Bits()[p] == (old(Bits())[p] || InRows(p, start, w, i, imgW))
      {
        SetRow(offset, w, start, i, imgW, old(Bits()));
        offset := offset + imgW;
        assert offset == start + (i + 1) * imgW;
        i := i + 1;
      }
      if h < 0 {
        forall p | 0 <= p < len
          ensures Bits()[p] == (old(Bits())[p] || InRows(p, y * imgW + x, w, h, imgW))
        {
          assert !InRows(p, y * imgW + x, w, h, imgW);
        }
      }
    }

    /** One row of set_bit_range_2d: `set_bit_range(offset, offset+w)` for row i. */
    method SetRow(offset: int, w: int, ghost start: int, ghost i: int, ghost stride: int, ghost orig: seq<bool>)
      requires Valid() && 0 <= i && |orig| == len
      requires offset == start + i * stride && 0 <= offset <= offset + w <= len
      requires forall p :: 0 <= p < len ==> Bits()[p] == (orig[p] || InRows(p, start, w, i, stride))
      modifies data
      ensures Valid()
      ensures forall p :: 0 <= p < len ==> Bits()[p] == (orig[p] || InRows(p, start, w, i + 1, stride))
    {
      ghost var before := Bits();
      SetBitRange(offset, offset + w);
      AddRow(before, Bits(), orig, start, w, i, stride);
    }

    /** `copy_from(r)`: reallocate when the lengths differ, then copy every word, so the
        length and every bit (and every padding bit) equal r's. */
    method CopyFrom(r: BitArray)
      requires Valid() && r.Valid()
      modifies this, data
      ensures Valid() && len == old(r.len)
      ensures data[..] == old(r.data[..]) && Bits() == old(r.Bits())
    {
      if len != r.len {
        data := new Word[r.Uint32Length()](_ => ZERO);
        len := r.len;
      }
      var i := 0;
      var n := Uint32Length();
      while i < n
        invariant 0 <= i <= n && data.Length == n == r.data.Length
        invariant data == old(data) || fresh(data)
        invariant len == r.len == old(r.len) && Valid() && r.Valid()
        invariant forall k :: i <= k < n ==> r.data[k] == old(r.data[k])
        invariant data[..i] == old(r.data[..i])
      {
        data[i] := r.data[i];
        i := i + 1;
      }
      assert data[..] == data[..n];
      assert old(r.data[..]) == old(r.data[..n]);
    }

    /** The loop shared by `&=`, `|=` and `^=`: words [0, min(uint32 lengths)) of this become
        op(own word, r's word); later words are unchanged. r may be this array. */
    method CombineWith(r: BitArray, op: WordOp)
      requires Valid() && r.Valid()
      modifies data
      ensures Valid()
      ensures data[..] == Combine(op, old(data[..]), old(r.data[..]), MinWords(old(len), old(r.len)))
    {
      var ulenLhs := Uint32Length();
      var ulenRhs := r.Uint32Length();
      var minlen := if ulenLhs < ulenRhs then ulenLhs else ulenRhs;
      var i := 0;
      while i < minlen
        invariant 0 <= i <= minlen && Valid() && r.Valid()
        invariant forall k :: i <= k < minlen ==> r.data[k] == old(r.data[k])
        invariant forall k :: 0 <= k < i ==> data[k] == Apply(op, old(data[k]), old(r.data[k]))
        invariant forall k :: i <= k < data.Length ==> data[k] == old(data[k])
      {
        data[i] := Apply(op, data[i], r.data[i]);
        i := i + 1;
      }
    }

    /** `operator&=`: AND word-wise over the shorter array. Bits at positions below both
        lengths become the AND of the two bits; bits in words past r's last word are unchanged.
        Positions in r's last word beyond r.len take r's padding bits. */
    method And(r: BitArray)
      requires Valid() && r.Valid()
      modifies data
      ensures Valid()
      ensures data[..] == Combine(AndOp, old(data[..]), old(r.data[..]), MinWords(old(len), old(r.len)))
      ensures forall i :: 0 <= i < len && i < r.len ==> Bits()[i] == (old(Bits()[i]) && old(r.Bits()[i]))
      ensures forall i :: 32 * r.data.Length <= i < len ==> Bits()[i] == old(Bits()[i])
    {
      CombineWith(r, AndOp);
      CombineBits(AndOp, old(data[..]), old(r.data[..]), MinWords(len, r.len), len);
    }

    /** `operator|=`: OR word-wise over the shorter array, as for And. */
    method Or(r: BitArray)
      requires Valid() && r.Valid()
      modifies data
      ensures Valid()
      ensures data[..] == Combine(OrOp, old(data[..]), old(r.data[..]), MinWords(old(len), old(r.len)))
      ensures forall i :: 0 <= i < len && i < r.len ==> Bits()[i] == (old(Bits()[i]) || old(r.Bits()[i]))
      ensures forall i :: 32 * r.data.Length <= i < len ==> Bits()[i] == old(Bits()[i])
    {
      CombineWith(r, OrOp);
      CombineBits(OrOp, old(data[..]), old(r.data[..]), MinWords(len, r.len), len);
    }

    /** `operator^=`: XOR word-wise over the shorter array, as for And. */
    method Xor(r: BitArray)
      requires Valid() && r.Valid()
      modifies data
      ensures Valid()
      ensures data[..] == Combine(XorOp, old(data[..]), old(r.data[..]), MinWords(old(len), old(r.len)))
      ensures forall i :: 0 <= i < len && i < r.len ==> Bits()[i] == (old(Bits()[i]) != old(r.Bits()[i]))
      ensures forall i :: 32 * r.data.Length <= i < len ==> Bits()[i] == old(Bits()[i])
    {
      CombineWith(r, XorOp);
      CombineBits(XorOp, old(data[..]), old(r.data[..]), MinWords(len, r.len), len);
    }
  }

  /** The loop bound of `&=`, `|=` and `^=`: the smaller uint32 length. */
  function MinWords(lenA: int, lenB: int): (n: int)
    requires 0 <= lenA && 0 <= lenB
    ensures n == WordCount(lenA) || n == WordCount(lenB)
    ensures n <= WordCount(lenA) && n <= WordCount(lenB)
  {
    if WordCount(lenA) < WordCount(lenB) then WordCount(lenA) else WordCount(lenB)
  }

  /** Changing one bit of one word changes exactly that bit of the bit view. */
  lemma SingleBitChange(before: seq<Word>, after: seq<Word>, idx: int, v: bool)
    requires 0 <= idx < 32 * |before|
    requires after == before[idx / 32 := before[idx / 32][idx % 32 := v]]
    ensures forall len :: idx < len <= 32 * |before| ==> BitsOf(after, len) == BitsOf(before, len)[idx := v]
  {
    forall len | idx < len <= 32 * |before|
      ensures BitsOf(after, len) == BitsOf(before, len)[idx := v]
    {
      forall i | 0 <= i < len
        ensures BitsOf(after, len)[i] == BitsOf(before, len)[idx := v][i]
      {
        if i / 32 == idx / 32 && i % 32 == idx % 32 {
          assert i == 32 * (i / 32) + i % 32 == idx;
        }
      }
    }
  }

  /** After one more row is set, the bits are those of the first i+1 rows. */
  lemma AddRow(before: seq<bool>, after: seq<bool>, orig: seq<bool>, start: int, w: int, i: int, stride: int)
    requires |before| == |after| == |orig| && 0 <= i
    requires forall p :: 0 <= p < |orig| ==> before[p] == (orig[p] || InRows(p, start, w, i, stride))
    requires forall p :: 0 <= p < |orig| ==>
      after[p] == (before[p] || start + i * stride <= p < start + i * stride + w)
    ensures forall p :: 0 <= p < |orig| ==> after[p] == (orig[p] || InRows(p, start, w, i + 1, stride))
  {
    forall p | 0 <= p < |orig|
      ensures after[p] == (orig[p] || InRows(p, start, w, i + 1, stride))
    {
      if InRows(p, start, w, i + 1, stride) {
        var r :| 0 <= r < i + 1 && start + r * stride <= p < start + r * stride + w;
        if r < i {
          assert InRows(p, start, w, i, stride);
        }
      }
      if start + i * stride <= p < start + i * stride + w {
        assert InRows(p, start, w, i + 1, stride) by {
          assert 0 <= i < i + 1;
        }
      }
      if InRows(p, start, w, i, stride) {
        var r :| 0 <= r < i && start + r * stride <= p < start + r * stride + w;
        assert 0 <= r < i + 1;
      }
    }
  }
}
