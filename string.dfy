/** The growable character string of Core/String: a heap buffer of cap + 1
    characters (room for the terminating NUL) of which the first len hold
    the text. Capacity doubles on demand; insertion shifts the tail with
    memmove, and inserting a piece of the string into itself
    (_self_insert) re-locates the piece after the shift. */
module Strings {
  import opened Wrappers

  /** The text c with t inserted at idx. */
  function Inserted(c: seq<char>, idx: int, t: seq<char>): (r: seq<char>)
    requires 0 <= idx <= |c|
    ensures |r| == |c| + |t|
    ensures r[..idx] == c[..idx] && r[idx..idx + |t|] == t && r[idx + |t|..] == c[idx..]
  {
    c[..idx] + t + c[idx..]
  }

  /** The text c without the characters in [b, e). */
  function Removed(c: seq<char>, b: int, e: int): (r: seq<char>)
    requires 0 <= b <= e <= |c|
    ensures |r| == |c| - (e - b)
    ensures r[..b] == c[..b] && r[b..] == c[e..]
  {
    c[..b] + c[e..]
  }

  /** Removing what was inserted gives the text back. */
  lemma InsertThenRemove(c: seq<char>, idx: int, t: seq<char>)
    requires 0 <= idx <= |c|
    ensures Removed(Inserted(c, idx, t), idx, idx + |t|) == c
  {
    var r := Inserted(c, idx, t);
    assert r[idx + |t|..] == c[idx..];
    assert c[..idx] + c[idx..] == c;
  }

  /** Inserting at the end is appending. */
  lemma InsertAtEnd(c: seq<char>, t: seq<char>)
    ensures Inserted(c, |c|, t) == c + t
  {
    assert c[..|c|] == c && c[|c|..] == [];
  }

  /** The pieces of a buffer after an insertion: the head up to idx, the
      inserted characters, then the old tail shifted by |t|. */
  lemma InsertedFrom(b: seq<char>, c: seq<char>, idx: int, t: seq<char>)
    requires 0 <= idx <= |c| && |c| + |t| <= |b|
    requires forall i :: 0 <= i < idx ==> b[i] == c[i]
    requires forall i :: idx <= i < idx + |t| ==> b[i] == t[i - idx]
    requires forall i :: idx + |t| <= i < |c| + |t| ==> b[i] == c[i - |t|]
    ensures b[..|c| + |t|] == Inserted(c, idx, t)
  {
    var r := Inserted(c, idx, t);
    forall i | 0 <= i < |c| + |t| ensures b[i] == r[i] {
      if i < idx {
        assert r[i] == r[..idx][i];
      } else if i < idx + |t| {
        assert r[i] == r[idx..idx + |t|][i - idx];
      } else {
        assert r[i] == r[idx + |t|..][i - idx - |t|];
      }
    }
  }

  /** The pieces of a buffer after a removal. */
  lemma RemovedFrom(b: seq<char>, c: seq<char>, bg: int, e: int)
    requires 0 <= bg <= e <= |c| && |c| <= |b|
    requires forall i :: 0 <= i < bg ==> b[i] == c[i]
    requires forall i :: bg <= i < |c| - (e - bg) ==> b[i] == c[i + (e - bg)]
    ensures b[..|c| - (e - bg)] == Removed(c, bg, e)
  {
    var r := Removed(c, bg, e);
    forall i | 0 <= i < |c| - (e - bg) ensures b[i] == r[i] {
      if i < bg {
        assert r[i] == r[..bg][i];
      } else {
        assert r[i] == r[bg..][i - bg];
      }
    }
  }

  // ---------------------------------------------------------------------
  // memmove and memcpy on buffer values.

  /** out is buf after memmove(dst, src, n): the n characters from src
      copied over dst, as if through a temporary, and nothing else changed. */
  ghost predicate IsMoved(out: seq<char>, buf: seq<char>, dst: int, src: int, n: int)
  {
    |out| == |buf| && 0 <= n && 0 <= dst && dst + n <= |buf| && 0 <= src && src + n <= |buf| &&
    (forall i :: dst <= i < dst + n ==> out[i] == buf[i - dst + src]) &&
    (forall i :: 0 <= i < |out| && !(dst <= i < dst + n) ==> out[i] == buf[i])
  }

  /** out is buf with s copied to position at. */
  ghost predicate IsWritten(out: seq<char>, buf: seq<char>, at: int, s: seq<char>)
  {
    |out| == |buf| && 0 <= at && at + |s| <= |buf| &&
    (forall i :: at <= i < at + |s| ==> out[i] == s[i - at]) &&
    (forall i :: 0 <= i < |out| && !(at <= i < at + |s|) ==> out[i] == buf[i])
  }

  /** The tail moved right by |s| and s copied into the gap. */
  lemma GapFilled(b: seq<char>, b1: seq<char>, b0: seq<char>, n: int, idx: int, s: seq<char>)
    requires 0 <= idx <= n && n + |s| <= |b0|
    requires IsMoved(b1, b0, idx + |s|, idx, n - idx) && IsWritten(b, b1, idx, s)
    ensures b[..n + |s|] == Inserted(b0[..n], idx, s)
  {
    var c := b0[..n];
    forall i | 0 <= i < idx ensures b[i] == c[i] {
      assert b[i] == b1[i] == b0[i];
    }
    forall i | idx + |s| <= i < n + |s| ensures b[i] == c[i - |s|] {
      assert b[i] == b1[i] == b0[i - |s|];
    }
    InsertedFrom(b, c, idx, s);
  }

  /** The tail moved right by one (when there is one) and elem put at idx. */
  lemma CharPut(b: seq<char>, b1: seq<char>, b0: seq<char>, n: int, idx: int, elem: char)
    requires 0 <= idx <= n && n + 1 <= |b0| == |b1|
    requires idx < n ==> IsMoved(b1, b0, idx + 1, idx, n - idx)
    requires idx == n ==> b1 == b0
    requires b == b1[idx := elem]
    ensures b[..n + 1] == Inserted(b0[..n], idx, [elem])
  {
    var c := b0[..n];
    forall i | 0 <= i < idx ensures b[i] == c[i] {
      assert b[i] == b1[i] == b0[i];
    }
    forall i | idx + 1 <= i < n + 1 ensures b[i] == c[i - 1] {
      assert b[i] == b1[i] == b0[i - 1];
    }
    InsertedFrom(b, c, idx, [elem]);
  }

  /** The memmove of a removal: the characters from e on move left to b. */
  lemma PieceRemoved(b: seq<char>, b0: seq<char>, n: int, bg: int, e: int)
    requires 0 <= bg <= e <= n <= |b0| && IsMoved(b, b0, bg, e, n - e)
    ensures b[..n - (e - bg)] == Removed(b0[..n], bg, e)
  {
    RemovedFrom(b, b0[..n], bg, e);
  }

  /** The memmove of an insertion at the end: the piece copied right after
      the text. */
  lemma PieceAtEnd(b: seq<char>, b0: seq<char>, n: int, sidx: int, slen: int)
    requires 0 <= sidx && 0 < slen && sidx + slen <= n && n + slen <= |b0|
    requires IsMoved(b, b0, n, sidx, slen)
    ensures b[..n + slen] == Inserted(b0[..n], n, b0[..n][sidx..sidx + slen])
  {
    var c := b0[..n];
    var t := c[sidx..sidx + slen];
    forall i | n <= i < n + slen ensures b[i] == t[i - n] {
      assert b[i] == b0[i - n + sidx] == c[i - n + sidx];
    }
    forall i | 0 <= i < n ensures b[i] == c[i] {
      assert b[i] == b0[i];
    }
    InsertedFrom(b, c, n, t);
  }

  /** A piece at or after idx: the tail moved right by slen, and the piece
      is copied from where the shift left it. */
  lemma PieceAfter(b: seq<char>, b1: seq<char>, b0: seq<char>, n: int, idx: int, sidx: int, slen: int)
    requires 0 <= idx <= sidx && 0 < slen && sidx + slen <= n && n + slen <= |b0|
    requires IsMoved(b1, b0, idx + slen, idx, n - idx)
    requires IsMoved(b, b1, idx, sidx + slen, slen)
    ensures b[..n + slen] == Inserted(b0[..n], idx, b0[..n][sidx..sidx + slen])
  {
    var c := b0[..n];
    var t := c[sidx..sidx + slen];
    forall i | 0 <= i < idx ensures b[i] == c[i] {
      assert b[i] == b1[i] == b0[i];
    }
    forall i | idx <= i < idx + slen ensures b[i] == t[i - idx] {
      var j := i - idx + (sidx + slen);
      assert b[i] == b1[j] == b0[j - slen] == c[j - slen];
    }
    forall i | idx + slen <= i < n + slen ensures b[i] == c[i - slen] {
      assert b[i] == b1[i] == b0[i - slen];
    }
    InsertedFrom(b, c, idx, t);
  }

  /** A piece that starts before idx: the tail moved right by slen, the
      first lhslen characters of the piece are copied from where they are
      and the rest from where the shift left them. */
  lemma PieceSplit(b: seq<char>, b2: seq<char>, b1: seq<char>, b0: seq<char>, n: int, idx: int, sidx: int, slen: int, lhslen: int)
    requires 0 <= sidx < idx < n && 0 < slen && sidx + slen <= n && n + slen <= |b0|
    requires lhslen == if idx - sidx > slen then slen else idx - sidx
    requires IsMoved(b1, b0, idx + slen, idx, n - idx)
    requires IsMoved(b2, b1, idx, sidx, lhslen)
    requires IsMoved(b, b2, idx + lhslen, sidx + slen + lhslen, slen - lhslen)
    ensures b[..n + slen] == Inserted(b0[..n], idx, b0[..n][sidx..sidx + slen])
  {
    var c := b0[..n];
    var t := c[sidx..sidx + slen];
    forall i | 0 <= i < idx ensures b[i] == c[i] {
      assert b[i] == b2[i] == b1[i] == b0[i];
    }
    forall i | idx <= i < idx + slen ensures b[i] == t[i - idx] {
      if i < idx + lhslen {
        assert b[i] == b2[i] == b1[i - idx + sidx] == b0[i - idx + sidx];
      } else {
        var j := i - idx + sidx + slen;
        assert b[i] == b2[j] == b1[j] == b0[j - slen];
      }
    }
    forall i | idx + slen <= i < n + slen ensures b[i] == c[i - slen] {
      assert b[i] == b2[i] == b1[i] == b0[i - slen];
    }
    InsertedFrom(b, c, idx, t);
  }

  // ---------------------------------------------------------------------
  // The string object.

  class Str {
    var data: array<char>
    var len: int
    var cap: int

    /** The buffer holds cap characters and the terminator; len never
        exceeds cap. */
    ghost predicate Valid()
      reads this
    {
      data.Length == cap + 1 && 0 <= len <= cap
    }

    ghost function Contents(): seq<char>
      reads this, data
      requires Valid()
    {
      data[..len]
    }

    /** `String()`: the empty string, backed by a one-character buffer that
        holds only the terminator. */
    constructor ()
      ensures Valid() && Contents() == [] && cap == 0 && data[0] == '\0'
    {
      data := new char[1](_ => '\0');
      len, cap := 0, 0;
    }

    /** `String(Slice)`: a copy of s with capacity |s|. */
    constructor FromSlice(s: seq<char>)
      ensures Valid() && Contents() == s && cap == |s| && data[len] == '\0'
    {
      data := new char[|s| + 1](i => if 0 <= i < |s| then s[i] else '\0');
      len, cap := |s|, |s|;
    }

    /** `_new_size`: at least doubles the capacity, and at least the request. */
    function NewSize(requested: int): (r: int)
      reads this
      ensures r >= requested && r >= 2 * cap
      ensures r == requested || r == 2 * cap
    {
      var newcap := cap * 2;
      if newcap < requested then requested else newcap
    }

    /** memmove within a buffer: n characters from src copied over dst, as
        if through a temporary. */
    static method MemMove(a: array<char>, dst: int, src: int, n: int)
      requires 0 <= n && 0 <= dst && dst + n <= a.Length && 0 <= src && src + n <= a.Length
      modifies a
      ensures IsMoved(a[..], old(a[..]), dst, src, n)
    {
      var tmp := a[src..src + n];
      forall i | dst <= i < dst + n {
        a[i] := tmp[i - dst];
      }
    }

    /** memcpy of s to position at. */
    static method Write(a: array<char>, at: int, s: seq<char>)
      requires 0 <= at && at + |s| <= a.Length
      modifies a
      ensures IsWritten(a[..], old(a[..]), at, s)
    {
      forall i | at <= i < at + |s| {
        a[i] := s[i - at];
      }
    }

    /** `reserve`: the capacity becomes at least n and never drops; the
        text is kept, in a new buffer when the capacity grew. */
    method Reserve(n: int)
      requires Valid()
      modifies this
      ensures Valid() && len == old(len) && Contents() == old(Contents())
      ensures cap == if old(cap) >= n then old(cap) else n
      ensures old(cap) >= n ==> data == old(data)
      ensures old(cap) < n ==> fresh(data)
    {
      if cap >= n {
        return;
      }
      var oldData := data;
      cap := n;
      data := new char[cap + 1];
      if len > 0 {
        forall i | 0 <= i < len + 1 {
          data[i] := oldData[i];
        }
      } else {
        data[0] := '\0';
      }
      assert data[..len] == oldData[..len];
    }

    /** `_ensure_capacity`: room for n more characters, grown by `_new_size`. */
    method EnsureCapacity(n: int)
      requires Valid() && 0 <= n
      modifies this
      ensures Valid() && len == old(len) && Contents() == old(Contents())
      ensures len + n <= cap
      ensures cap == if old(len) + n > old(cap) then old(NewSize(len + n)) else old(cap)
      ensures data == old(data) || fresh(data)
    {
      if len + n > cap {
        Reserve(NewSize(len + n));
      }
    }

    /** `shrink`: the capacity drops to the length; the text is kept. */
    method Shrink()
      requires Valid()
      modifies this
      ensures Valid() && Contents() == old(Contents()) && cap == len
    {
      if cap == len {
        return;
      }
      var oldData := data;
      if len > 0 {
        data := new char[len + 1];
        forall i | 0 <= i < len + 1 {
          data[i] := oldData[i];
        }
        assert data[..len] == oldData[..len];
      } else {
        data := new char[1](_ => '\0');
      }
      cap := len;
    }

    /** `clear`: the text becomes empty and the capacity stays. */
    method Clear()
      requires Valid()
      modifies this, data
      ensures Valid() && Contents() == [] && cap == old(cap) && data == old(data) && data[0] == '\0'
    {
      len := 0;
      data[0] := '\0';
    }

    /** `resize(n, elem)`: truncates to n characters, or pads with elem up to n. */
    method Resize(n: int, elem: char)
      requires Valid() && n >= 0
      modifies this, data
      ensures Valid()
      ensures Contents() == if n <= old(len) then old(Contents())[..n] else old(Contents()) + seq(n - old(len), _ => elem)
    {
      if len == n {
        return;
      }
      if len > n {
        len := n;
        data[len] := '\0';
        return;
      }
      ghost var c := Contents();
      Reserve(n);
      var i := len;
      while i < n
        invariant len <= i <= n && Valid() && len == |c| && n <= cap
        invariant data == old(data) || fresh(data)
        invariant forall j :: 0 <= j < len ==> data[j] == c[j]
        invariant forall j :: len <= j < i ==> data[j] == elem
      {
        data[i] := elem;
        i := i + 1;
      }
      ghost var l0 := len;
      len := n;
      data[len] := '\0';
      assert Contents() == c + seq(n - l0, _ => elem);
    }

    /** `resize(n)`: truncates to n characters, or grows to n keeping the
        text as the prefix, the rest of the characters unspecified. */
    method ResizeUninit(n: int)
      requires Valid() && n >= 0
      modifies this, data
      ensures Valid() && |Contents()| == n
      ensures n <= old(len) ==> Contents() == old(Contents())[..n]
      ensures n > old(len) ==> Contents()[..old(len)] == old(Contents())
    {
      if len == n {
        return;
      }
      if len > n {
        len := n;
        data[len] := '\0';
        return;
      }
      ghost var c := Contents();
      Reserve(n);
      ghost var l0 := len;
      len := n;
      assert Contents()[..l0] == data[..l0] == c;
    }

    /** `insert(idx, s)` for a piece s that is not part of this string:
        the tail moves right by |s| and s is copied into the gap. */
    method Insert(idx: int, s: seq<char>)
      requires Valid() && 0 <= idx <= len
      modifies this, data
      ensures Valid() && Contents() == Inserted(old(Contents()), idx, s)
      ensures s != [] ==> data[len] == '\0'
      ensures cap == if old(len) + |s| > old(cap) then old(NewSize(len + |s|)) else old(cap)
    {
      if |s| == 0 {
        assert Contents() == Inserted(Contents(), idx, s);
        return;
      }
      EnsureCapacity(|s|);
      OpenGap(data, len, idx, s);
      len := len + |s|;
      data[len] := '\0';
    }

    /** The buffer work of `insert(idx, s)` on the first n characters of a. */
    static method OpenGap(a: array<char>, n: int, idx: int, s: seq<char>)
      requires 0 <= idx <= n && n + |s| < a.Length
      modifies a
      ensures a[..n + |s|] == Inserted(old(a[..n]), idx, s)
    {
      ghost var b0 := a[..];
      MemMove(a, idx + |s|, idx, n - idx);
      ghost var b1 := a[..];
      Write(a, idx, s);
      GapFilled(a[..], b1, b0, n, idx, s);
    }

    /** `append(s)`: insertion at the end. */
    method Append(s: seq<char>)
      requires Valid()
      modifies this, data
      ensures Valid() && Contents() == old(Contents()) + s
    {
      InsertAtEnd(Contents(), s);
      Insert(len, s);
    }

    /** `insert(idx, elem)` for one character. */
    method InsertChar(idx: int, elem: char)
      requires Valid() && 0 <= idx <= len
      modifies this, data
      ensures Valid() && Contents() == Inserted(old(Contents()), idx, [elem]) && data[len] == '\0'
    {
      EnsureCapacity(1);
      PutChar(data, len, idx, elem);
      len := len + 1;
      data[len] := '\0';
    }

    /** The buffer work of `insert(idx, elem)` on the first n characters of a. */
    static method PutChar(a: array<char>, n: int, idx: int, elem: char)
      requires 0 <= idx <= n && n + 1 < a.Length
      modifies a
      ensures a[..n + 1] == Inserted(old(a[..n]), idx, [elem])
    {
      ghost var b0 := a[..];
      if idx < n {
        MemMove(a, idx + 1, idx, n - idx);
      }
      ghost var b1 := a[..];
      a[idx] := elem;
      CharPut(a[..], b1, b0, n, idx, elem);
    }

    /** `append(elem)` for one character. */
    method AppendChar(elem: char)
      requires Valid()
      modifies this, data
      ensures Valid() && Contents() == old(Contents()) + [elem] && data[len] == '\0'
    {
      ghost var c := Contents();
      EnsureCapacity(1);
      data[len] := elem;
      len := len + 1;
      assert Contents() == c + [elem];
      data[len] := '\0';
    }

    /** `remove(begin, end)`: the characters in [begin, end) are deleted. */
    method Remove(b: int, e: int)
      requires Valid() && 0 <= b <= e <= len
      modifies this, data
      ensures Valid() && Contents() == Removed(old(Contents()), b, e) && data[len] == '\0'
      ensures cap == old(cap)
    {
      CloseGap(data, len, b, e);
      len := len - (e - b);
      data[len] := '\0';
    }

    /** The buffer work of `remove(begin, end)` on the first n characters of
        a: the characters from end on move left over the gap. */
    static method CloseGap(a: array<char>, n: int, b: int, e: int)
      requires 0 <= b <= e <= n <= a.Length
      modifies a
      ensures a[..n - (e - b)] == Removed(old(a[..n]), b, e)
    {
      ghost var b0 := a[..];
      if e < n {
        MemMove(a, b, e, n - e);
      } else {
        assert IsMoved(b0, b0, b, e, 0);
      }
      PieceRemoved(a[..], b0, n, b, e);
    }

    /** `remove(idx)`: the character at idx is deleted. */
    method RemoveAt(idx: int)
      requires Valid() && 0 <= idx < len
      modifies this, data
      ensures Valid() && Contents() == Removed(old(Contents()), idx, idx + 1) && data[len] == '\0'
      ensures cap == old(cap)
    {
      ghost var c := Contents();
      if idx == len - 1 {
        len := len - 1;
        assert Contents() == Removed(c, idx, idx + 1);
        data[len] := '\0';
        return;
      }
      CloseGap(data, len, idx, idx + 1);
      len := len - 1;
      data[len] := '\0';
    }

    /** `insert(idx, sub(b, e))`: a piece of this very string is inserted;
        a non-empty piece starts inside the text, so it goes through
        SelfInsert. */
    method InsertSub(idx: int, b: int, e: int)
      requires Valid() && 0 <= idx <= len && 0 <= b <= e <= len
      modifies this, data
      ensures Valid() && Contents() == Inserted(old(Contents()), idx, old(Contents())[b..e])
    {
      if e - b == 0 {
        assert Contents() == Inserted(Contents(), idx, []);
        return;
      }
      SelfInsert(idx, b, e - b);
    }

    /** `_self_insert(idx, s)` where s is [sidx, sidx + slen) of this string:
        room for slen more characters, the piece re-located after a
        possible reallocation, then the buffer work. */
    method SelfInsert(idx: int, sidx: int, slen: int)
      requires Valid() && 0 <= idx <= len && 0 <= sidx && 0 < slen && sidx + slen <= len
      modifies this, data
      ensures Valid() && Contents() == Inserted(old(Contents()), idx, old(Contents())[sidx..sidx + slen])
      ensures data[len] == '\0'
    {
      EnsureCapacity(slen);
      if idx == len {
        CopyToEnd(data, len, sidx, slen);
      } else {
        ShiftAndCopy(data, len, idx, sidx, slen);
      }
      len := len + slen;
      data[len] := '\0';
    }

    /** Insertion at the end: the piece is copied straight after the text. */
    static method CopyToEnd(a: array<char>, n: int, sidx: int, slen: int)
      requires 0 <= sidx && 0 < slen && sidx + slen <= n && n + slen < a.Length
      modifies a
      ensures a[..n + slen] == Inserted(old(a[..n]), n, old(a[..n])[sidx..sidx + slen])
    {
      ghost var b0 := a[..];
      MemMove(a, n, sidx, slen);
      PieceAtEnd(a[..], b0, n, sidx, slen);
    }

    /** The tail moves right by slen. A piece at or after idx has moved with
        it and is copied from its new place; a piece that starts before idx
        is copied in two halves, the first lhslen characters from where they
        are and the rest from where the shift left them. The first half is
        capped at slen, so a piece wholly before idx is copied whole. */
    static method ShiftAndCopy(a: array<char>, n: int, idx: int, sidx: int, slen: int)
      requires 0 <= idx < n && 0 <= sidx && 0 < slen && sidx + slen <= n && n + slen < a.Length
      modifies a
      ensures a[..n + slen] == Inserted(old(a[..n]), idx, old(a[..n])[sidx..sidx + slen])
    {
      ghost var b0 := a[..];
      MemMove(a, idx + slen, idx, n - idx);
      if idx <= sidx {
        CopyShifted(a, n, idx, sidx, slen, b0);
      } else {
        CopySplit(a, n, idx, sidx, slen, b0);
      }
    }

    /** The piece lies at or after idx: it has moved with the tail. */
    static method CopyShifted(a: array<char>, n: int, idx: int, sidx: int, slen: int, ghost b0: seq<char>)
      requires 0 <= idx <= sidx && 0 < slen && sidx + slen <= n && n + slen < a.Length
      requires IsMoved(a[..], b0, idx + slen, idx, n - idx)
      modifies a
      ensures a[..n + slen] == Inserted(b0[..n], idx, b0[..n][sidx..sidx + slen])
    {
      ghost var b1 := a[..];
      MemMove(a, idx, sidx + slen, slen);
      PieceAfter(a[..], b1, b0, n, idx, sidx, slen);
    }

    /** The piece starts before idx: its first half is where it was, the
        rest has moved with the tail. */
    static method CopySplit(a: array<char>, n: int, idx: int, sidx: int, slen: int, ghost b0: seq<char>)
      requires 0 <= sidx < idx < n && 0 < slen && sidx + slen <= n && n + slen < a.Length
      requires IsMoved(a[..], b0, idx + slen, idx, n - idx)
      modifies a
      ensures a[..n + slen] == Inserted(b0[..n], idx, b0[..n][sidx..sidx + slen])
    {
      ghost var b1 := a[..];
      var lhslen := idx - sidx;
      if lhslen > slen {
        lhslen := slen;
      }
      MemMove(a, idx, sidx, lhslen);
      CopySecondHalf(a, n, idx, sidx, slen, lhslen, b0, b1);
    }

    /** The rest of a split piece, from where the shift left it. */
    static method CopySecondHalf(a: array<char>, n: int, idx: int, sidx: int, slen: int, lhslen: int,
                                 ghost b0: seq<char>, ghost b1: seq<char>)
      requires 0 <= sidx < idx < n && 0 < slen && sidx + slen <= n && n + slen < a.Length
      requires lhslen == if idx - sidx > slen then slen else idx - sidx
      requires IsMoved(b1, b0, idx + slen, idx, n - idx)
      requires IsMoved(a[..], b1, idx, sidx, lhslen)
      modifies a
      ensures a[..n + slen] == Inserted(b0[..n], idx, b0[..n][sidx..sidx + slen])
    {
      ghost var b2 := a[..];
      MemMove(a, idx + lhslen, sidx + slen + lhslen, slen - lhslen);
      PieceSplit(a[..], b2, b1, b0, n, idx, sidx, slen, lhslen);
    }

    /** _self_insert as the source has it: the first half is not capped at
        slen, so a piece wholly before idx gives lhslen > slen and hands the
        second memmove a length below zero. ok is false exactly then; in
        every other case the piece is inserted. */
    static method SelfInsertAsWritten(a: array<char>, n: int, idx: int, sidx: int, slen: int) returns (ok: bool)
      requires 0 <= idx <= n && 0 <= sidx && 0 < slen && sidx + slen <= n && n + slen < a.Length
      modifies a
      ensures ok <==> idx == n || idx <= sidx || idx - sidx <= slen
      ensures ok ==> a[..n + slen] == Inserted(old(a[..n]), idx, old(a[..n])[sidx..sidx + slen])
    {
      if idx == n {
        CopyToEnd(a, n, sidx, slen);
        return true;
      }
      ghost var b0 := a[..];
      MemMove(a, idx + slen, idx, n - idx);
      if idx <= sidx {
        CopyShifted(a, n, idx, sidx, slen, b0);
        return true;
      }
      var lhslen := idx - sidx;
      if slen - lhslen < 0 {
        return false;
      }
      CopySplit(a, n, idx, sidx, slen, b0);
      return true;
    }

    /** "aabbcc".insert(4, sub(0, 2)) as written: the piece "aa" ends before
        position 4, so lhslen = 4 and the second memmove is handed -2. */
    static method SelfInsertNegativeLength() returns (ok: bool)
      ensures !ok
    {
      var a := new char[9](i => if i < 2 then 'a' else if i < 4 then 'b' else if i < 6 then 'c' else '\0');
      ok := SelfInsertAsWritten(a, 6, 4, 0, 2);
    }
  }
}
