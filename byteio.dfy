/** Core/ByteIO: a reader that takes little-endian integers and byte runs
    off the front of a byte slice, reporting a shortage through a sticky
    error, and a writer that appends the host representation (little-endian,
    the only byte order the module supports) of integers and byte runs. */
module ByteIO {
  import opened Arith

  type byte = b: int | 0 <= b < 256

  /** The integer types of the read_* and write_* families. */
  datatype IntType = U8 | U16 | U32 | U64 | I8 | I16 | I32 | I64
  {
    /** sizeof(T) */
    function Size(): (n: nat)
      ensures n == 1 || n == 2 || n == 4 || n == 8
    {
      match this
      case U8 => 1
      case I8 => 1
      case U16 => 2
      case I16 => 2
      case U32 => 4
      case I32 => 4
      case U64 => 8
      case I64 => 8
    }

    predicate Signed()
    {
      I8? || I16? || I32? || I64?
    }
  }

  function Pow256(n: nat): (r: nat)
    ensures r >= 1
  {
    if n == 0 then 1 else 256 * Pow256(n - 1)
  }

  lemma Pow256Even(n: nat)
    requires n >= 1
    ensures Pow256(n) % 2 == 0
  {
    assert Pow256(n) == 2 * (128 * Pow256(n - 1));
  }

  lemma ZeroInRange(t: IntType)
    ensures InRange(t, 0)
  {
    Pow256Even(t.Size());
  }

  /** The values an integer of type t holds: [0, 256^n) unsigned, the two's
      complement range [-256^n/2, 256^n/2) signed. */
  predicate InRange(t: IntType, v: int)
  {
    if t.Signed() then -(Pow256(t.Size()) / 2) <= v < Pow256(t.Size()) / 2
    else 0 <= v < Pow256(t.Size())
  }

  /** The little-endian value of b: byte k weighs 256^k. read_int ORs the
      bytes shifted by 8k; the shifted bytes occupy disjoint bits, so the OR
      is this sum. */
  function Le(b: seq<byte>): (r: nat)
    ensures r < Pow256(|b|)
  {
    if b == [] then 0 else b[0] + 256 * Le(b[1..])
  }

  /** The n bytes, least significant first, of v modulo 256^n: for a
      negative v, its two's complement. */
  function Bytes(v: int, n: nat): (r: seq<byte>)
    ensures |r| == n
    decreases n
  {
    if n == 0 then [] else [v % 256] + Bytes(v / 256, n - 1)
  }

  /** The unsigned value u read back as type t: the one value of t's range
      that agrees with u modulo 256^n. */
  function AsType(t: IntType, u: nat): (r: int)
    requires u < Pow256(t.Size())
    ensures InRange(t, r) && (u - r) % Pow256(t.Size()) == 0
  {
    var p := Pow256(t.Size());
    Pow256Even(t.Size());
    if t.Signed() && u >= p / 2 then u - p else u
  }

  // ---------------------------------------------------------------------
  // The byte order facts.

  /** Peeling the low byte off v modulo 256 * d. */
  lemma ModStep(v: int, d: nat)
    requires d >= 1
    ensures v % (256 * d) == v % 256 + 256 * ((v / 256) % d)
  {
    var q, r := v / 256, v % 256;
    var q2, r2 := q / d, q % d;
    assert v == 256 * d * q2 + (256 * r2 + r);
    var m := 256 * r2 + r;
    assert 0 <= m < 256 * d;
    DivModUnique(v, 256 * d, q2, m);
  }

  /** Reading the bytes written for v gives v modulo 256^n. */
  lemma {:induction false} LeBytes(v: int, n: nat)
    ensures Le(Bytes(v, n)) == v % Pow256(n)
    decreases n
  {
    if n > 0 {
      var b := Bytes(v, n);
      assert b[1..] == Bytes(v / 256, n - 1);
      LeBytes(v / 256, n - 1);
      ModStep(v, Pow256(n - 1));
    }
  }

  /** Writing the value of n bytes gives the same bytes back. */
  lemma {:induction false} BytesLe(b: seq<byte>)
    ensures Bytes(Le(b), |b|) == b
  {
    if b != [] {
      var v := Le(b);
      DivModUnique(v, 256, Le(b[1..]), b[0]);
      BytesLe(b[1..]);
      assert Bytes(v, |b|) == [b[0]] + Bytes(Le(b[1..]), |b| - 1);
    }
  }

  /** A value of type t survives writing and reading back as t. */
  lemma ValueRoundTrip(t: IntType, v: int)
    requires InRange(t, v)
    ensures Le(Bytes(v, t.Size())) < Pow256(t.Size())
    ensures AsType(t, Le(Bytes(v, t.Size()))) == v
  {
    LeBytes(v, t.Size());
    ModOfRange(v, Pow256(t.Size()));
  }

  /** v modulo p for v in [-p, p). */
  lemma ModOfRange(v: int, p: int)
    requires p > 0 && -p <= v < p
    ensures v % p == if v >= 0 then v else v + p
  {
    if v >= 0 {
      DivModUnique(v, p, 0, v);
    } else {
      DivModUnique(v, p, -1, v + p);
    }
  }

  /** The bytes of the value read from b are b itself. */
  lemma BytesOfRead(t: IntType, b: seq<byte>)
    requires |b| == t.Size()
    ensures Bytes(AsType(t, Le(b)), |b|) == b
  {
    var v, p := AsType(t, Le(b)), Pow256(|b|);
    assert v % p == Le(b) by {
      if v == Le(b) {
        DivModUnique(v, p, 0, v);
      } else {
        DivModUnique(v, p, -1, Le(b));
      }
    }
    LeBytes(v, |b|);
    BytesLe(Bytes(v, |b|));
    BytesLe(b);
  }

  // ---------------------------------------------------------------------
  // The reader.

  /** The sticky error of Core/Error: once set, every read is a no-op. The
      message text is not modelled. */
  class Error {
    var failed: bool

    constructor ()
      ensures !failed
    {
      failed := false;
    }
  }

  class ByteReader {
    var data: seq<byte>

    constructor (d: seq<byte>)
      ensures data == d
    {
      data := d;
    }

    /** read_int<T>: with the error set, return 0; with fewer than sizeof(T)
        bytes left, set the error and return 0 without consuming; otherwise
        take sizeof(T) bytes off the front and return their little-endian
        value as T. */
    method ReadInt(t: IntType, err: Error) returns (v: int)
      modifies this, err
      ensures InRange(t, v)
      ensures old(err.failed) ==> v == 0 && data == old(data) && err.failed
      ensures !old(err.failed) && |old(data)| < t.Size() ==>
        v == 0 && data == old(data) && err.failed
      ensures !old(err.failed) && t.Size() <= |old(data)| ==>
        !err.failed && old(data) == Bytes(v, t.Size()) + data
    {
      ZeroInRange(t);
      if err.failed {
        return 0;
      }
      var n := t.Size();
      if |data| < n {
        err.failed := true;
        return 0;
      }
      var b := data[..n];
      data := data[n..];
      v := AsType(t, Le(b));
      BytesOfRead(t, b);
    }

    /** ByteReader::read(out): with the error set, do nothing; if out is
        longer than what is left, set the error; otherwise fill out with the
        next out.Length bytes and consume them. */
    method Read(out: array<byte>, err: Error)
      modifies this, out, err
      ensures old(err.failed) ==> data == old(data) && out[..] == old(out[..]) && err.failed
      ensures !old(err.failed) && out.Length > |old(data)| ==>
        data == old(data) && out[..] == old(out[..]) && err.failed
      ensures !old(err.failed) && out.Length <= |old(data)| ==>
        !err.failed && old(data) == out[..] + data
    {
      if err.failed {
        return;
      }
      if out.Length > |data| {
        err.failed := true;
        return;
      }
      var d := data;
      var i := 0;
      while i < out.Length
        modifies out
        invariant 0 <= i <= out.Length
        invariant out[..i] == d[..i]
      {
        out[i] := d[i];
        i := i + 1;
      }
      assert d == out[..] + d[out.Length..];
      data := d[out.Length..];
    }
  }

  // ---------------------------------------------------------------------
  // The writer.

  class ByteWriter {
    var data: seq<byte>

    constructor ()
      ensures data == []
    {
      data := [];
    }

    /** write_uint8 ... write_int64: append the sizeof(T) bytes of v in host
        order, which the module takes to be little-endian. */
    method WriteInt(t: IntType, v: int)
      requires InRange(t, v)
      modifies this
      ensures data == old(data) + Bytes(v, t.Size())
    {
      data := data + Bytes(v, t.Size());
    }

    /** ByteWriter::write: append the bytes as they are. */
    method Write(s: seq<byte>)
      modifies this
      ensures data == old(data) + s
    {
      data := data + s;
    }

    /** ByteWriter::write_string: append the bytes of the characters, which
        are C chars and so one byte each. */
    method WriteString(s: string)
      requires forall i :: 0 <= i < |s| ==> s[i] as int < 256
      modifies this
      ensures |data| == old(|data|) + |s|
      ensures data[..old(|data|)] == old(data)
      ensures forall i :: 0 <= i < |s| ==> data[old(|data|) + i] == s[i] as int
    {
      var b := seq(|s|, i requires 0 <= i < |s| => s[i] as int as byte);
      data := data + b;
    }
  }

  /** An integer written by a fresh writer and read back by a reader over
      the written bytes comes back unchanged, with the error clear and
      every byte consumed. */
  method WriteThenRead(t: IntType, v: int) returns (r: int, rest: seq<byte>, failed: bool)
    requires InRange(t, v)
    ensures r == v && rest == [] && !failed
  {
    var w := new ByteWriter();
    w.WriteInt(t, v);
    var rd := new ByteReader(w.data);
    var err := new Error();
    r := rd.ReadInt(t, err);
    assert Bytes(v, t.Size()) == Bytes(r, t.Size()) + rd.data;
    assert rd.data == [];
    ValueRoundTrip(t, v);
    ValueRoundTrip(t, r);
    BytesInjective(t, v, r);
    rest, failed := rd.data, err.failed;
  }

  /** Two values of one type with the same bytes are equal. */
  lemma BytesInjective(t: IntType, v: int, w: int)
    requires InRange(t, v) && InRange(t, w)
    requires Bytes(v, t.Size()) == Bytes(w, t.Size())
    ensures v == w
  {
    ValueRoundTrip(t, v);
    ValueRoundTrip(t, w);
  }
}
