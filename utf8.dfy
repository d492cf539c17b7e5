module Utf8 {
  /** A byte of a C `char` slice, read as unsigned. */
  type byte = b: int | 0 <= b < 256
  /** The C `int` used for runes. */
  type int32 = x: int | -0x8000_0000 <= x < 0x8000_0000

  const TX := 0x80
  const T2 := 0xC0
  const T3 := 0xE0
  const T4 := 0xF0
  const T5 := 0xF8
  const RUNE1MAX := 0x7F
  const RUNE2MAX := 0x7FF
  const RUNE3MAX := 0xFFFF
  const SURROGATE_MIN := 0xD800
  const SURROGATE_MAX := 0xDFFF
  const MAX_BYTES := 4
  const RUNE_SELF := 0x80
  const RUNE_MAX := 0x10FFFF
  const RUNE_ERROR := 0xFFFD

  datatype Decoded = Decoded(rune: int32, size: int, incomplete: bool)
  datatype SizedRune = SizedRune(rune: int32, size: int)

  predicate IsCont(b: byte) { TX <= b < T2 }

  function DecodeInternal(s: seq<byte>): (d: Decoded)
    ensures 0 <= d.size <= 4 && d.size <= |s|
    ensures |s| > 0 ==> d.size >= 1
  {
    if |s| < 1 then Decoded(RUNE_ERROR, 0, true)
    else
      var c0: int := s[0];
      if c0 < TX then Decoded(c0, 1, false)
      else if c0 < T2 then Decoded(RUNE_ERROR, 1, false)
      else if |s| < 2 then Decoded(RUNE_ERROR, 1, true)
      else
        var c1: int := s[1];
        if !IsCont(c1) then Decoded(RUNE_ERROR, 1, false)
        else if c0 < T3 then
          var r := (c0 % 32) * 64 + c1 % 64;
          if r <= RUNE1MAX then Decoded(RUNE_ERROR, 1, false) else Decoded(r, 2, false)
        else if |s| < 3 then Decoded(RUNE_ERROR, 1, true)
        else
          var c2: int := s[2];
          if !IsCont(c2) then Decoded(RUNE_ERROR, 1, false)
          else if c0 < T4 then
            var r := (c0 % 16) * 4096 + (c1 % 64) * 64 + c2 % 64;
            if r <= RUNE2MAX then Decoded(RUNE_ERROR, 1, false)
            else if SURROGATE_MIN <= r <= SURROGATE_MAX then Decoded(RUNE_ERROR, 1, false)
            else Decoded(r, 3, false)
          else if |s| < 4 then Decoded(RUNE_ERROR, 1, true)
          else
            var c3: int := s[3];
            if !IsCont(c3) then Decoded(RUNE_ERROR, 1, false)
            else if c0 < T5 then
              var r := (c0 % 8) * 262144 + (c1 % 64) * 4096 + (c2 % 64) * 64 + c3 % 64;
              if r <= RUNE3MAX || RUNE_MAX < r then Decoded(RUNE_ERROR, 1, false)
              else Decoded(r, 4, false)
            else Decoded(RUNE_ERROR, 1, false)
  }

  predicate ValidRune(r: int)
  {
    !(r < 0) && !(SURROGATE_MIN <= r <= SURROGATE_MAX) && !(r > RUNE_MAX)
  }

  /** The C conversion `unsigned ur = r`. */
  function Unsigned(r: int32): nat
  {
    if r < 0 then r + 0x1_0000_0000 else r
  }

  function Encode(r: int32): (s: seq<byte>)
    ensures 1 <= |s| <= 4
  {
    if Unsigned(r) <= RUNE1MAX then [r]
    else if Unsigned(r) <= RUNE2MAX then [T2 + r / 64, TX + r % 64]
    else
      var r1 := if Unsigned(r) > RUNE_MAX then RUNE_ERROR else r;
      var r' := if SURROGATE_MIN <= r1 <= SURROGATE_MAX then RUNE_ERROR else r1;
      if r' <= RUNE3MAX then [T3 + r' / 4096, TX + (r' / 64) % 64, TX + r' % 64]
      else [T4 + r' / 262144, TX + (r' / 4096) % 64, TX + (r' / 64) % 64, TX + r' % 64]
  }

  lemma {:induction false} Split2(r: int)
    requires RUNE1MAX < r <= RUNE2MAX
    ensures T2 <= T2 + r / 64 < T3 && IsCont(TX + r % 64)
    ensures ((T2 + r / 64) % 32) * 64 + (TX + r % 64) % 64 == r
  {
    var q1 := r / 64;
    Div64(2, r % 64);
    Div64(6, q1);
    assert r == q1 * 64 + r % 64;
  }

  lemma {:induction false} Split3(r: int)
    requires RUNE2MAX < r <= RUNE3MAX
    ensures T3 <= T3 + r / 4096 < T4 && IsCont(TX + (r / 64) % 64) && IsCont(TX + r % 64)
    ensures ((T3 + r / 4096) % 16) * 4096 + ((TX + (r / 64) % 64) % 64) * 64 + (TX + r % 64) % 64 == r
  {
    var q1 := r / 64;
    var q2 := q1 / 64;
    DivBy(r, 64, 4096);
    assert r == q1 * 64 + r % 64;
    assert q1 == q2 * 64 + q1 % 64;
    Div64(2, r % 64);
    Div64(2, q1 % 64);
    assert q2 < 16;
    assert (T3 + q2) % 16 == q2;
  }

  lemma {:induction false} Split4(r: int)
    requires RUNE3MAX < r <= RUNE_MAX
    ensures T4 <= T4 + r / 262144 < T5
    ensures IsCont(TX + (r / 4096) % 64) && IsCont(TX + (r / 64) % 64) && IsCont(TX + r % 64)
    ensures ((T4 + r / 262144) % 8) * 262144 + ((TX + (r / 4096) % 64) % 64) * 4096
            + ((TX + (r / 64) % 64) % 64) * 64 + (TX + r % 64) % 64 == r
  {
    var q1 := r / 64;
    var q2 := q1 / 64;
    var q3 := q2 / 64;
    DivBy(r, 64, 4096);
    DivBy(r, 4096, 262144);
    assert r == q1 * 64 + r % 64;
    assert q1 == q2 * 64 + q1 % 64;
    assert q2 == q3 * 64 + q2 % 64;
    Div64(2, r % 64);
    Div64(2, q1 % 64);
    Div64(2, q2 % 64);
    assert q3 < 8;
    assert (T4 + q3) % 8 == q3;
  }

  lemma {:induction false} DecodeEncode(r: int32, t: seq<byte>)
    requires ValidRune(r)
    ensures DecodeInternal(Encode(r) + t) == Decoded(r, |Encode(r)|, false)
  {
    if r <= RUNE1MAX {
    } else if r <= RUNE2MAX {
      DecodeEncode2(r, t);
    } else if r <= RUNE3MAX {
      DecodeEncode3(r, t);
    } else {
      DecodeEncode4(r, t);
    }
  }

  lemma DecodeEncode2(r: int32, t: seq<byte>)
    requires RUNE1MAX < r <= RUNE2MAX
    ensures DecodeInternal(Encode(r) + t) == Decoded(r, 2, false)
  {
    Split2(r);
    var s := Encode(r) + t;
    assert Encode(r) == [T2 + r / 64, TX + r % 64];
    assert s[0] == T2 + r / 64 && s[1] == TX + r % 64;
  }

  lemma DecodeEncode3(r: int32, t: seq<byte>)
    requires RUNE2MAX < r <= RUNE3MAX && ValidRune(r)
    ensures DecodeInternal(Encode(r) + t) == Decoded(r, 3, false)
  {
    Split3(r);
    var s := Encode(r) + t;
    assert Encode(r) == [T3 + r / 4096, TX + (r / 64) % 64, TX + r % 64];
    assert s[0] == T3 + r / 4096 && s[1] == TX + (r / 64) % 64 && s[2] == TX + r % 64;
  }

  lemma DecodeEncode4(r: int32, t: seq<byte>)
    requires RUNE3MAX < r <= RUNE_MAX
    ensures DecodeInternal(Encode(r) + t) == Decoded(r, 4, false)
  {
    Split4(r);
    var s := Encode(r) + t;
    assert Encode(r) == [T4 + r / 262144, TX + (r / 4096) % 64, TX + (r / 64) % 64, TX + r % 64];
    assert s[0] == T4 + r / 262144 && s[1] == TX + (r / 4096) % 64;
    assert s[2] == TX + (r / 64) % 64 && s[3] == TX + r % 64;
  }

  /** A decoded rune that is not an error is valid and re-encodes to exactly the bytes it came from. */
  lemma {:induction false} EncodeDecoded(s: seq<byte>)
    requires |s| > 0
    requires DecodeInternal(s).size > 1 || s[0] < RUNE_SELF
    ensures ValidRune(DecodeInternal(s).rune)
    ensures Encode(DecodeInternal(s).rune) == s[..DecodeInternal(s).size]
  {
    var d := DecodeInternal(s);
    if s[0] < TX {
      assert d == Decoded(s[0], 1, false);
    } else if d.size == 2 {
      EncodeDecoded2(s);
    } else if d.size == 3 {
      EncodeDecoded3(s);
    } else {
      EncodeDecoded4(s);
    }
  }

  lemma EncodeDecoded2(s: seq<byte>)
    requires |s| > 0 && DecodeInternal(s).size == 2
    ensures ValidRune(DecodeInternal(s).rune)
    ensures Encode(DecodeInternal(s).rune) == s[..2]
  {
    var c0: int, c1: int := s[0], s[1];
    Join2(c0, c1);
    var r := (c0 % 32) * 64 + c1 % 64;
    assert DecodeInternal(s).rune == r;
    assert Encode(r) == [T2 + r / 64, TX + r % 64];
  }

  lemma EncodeDecoded3(s: seq<byte>)
    requires |s| > 0 && DecodeInternal(s).size == 3
    ensures ValidRune(DecodeInternal(s).rune)
    ensures Encode(DecodeInternal(s).rune) == s[..3]
  {
    var c0: int, c1: int, c2: int := s[0], s[1], s[2];
    Join3(c0, c1, c2);
    var r := (c0 % 16) * 4096 + (c1 % 64) * 64 + c2 % 64;
    assert DecodeInternal(s).rune == r;
    assert Encode(r) == [T3 + r / 4096, TX + (r / 64) % 64, TX + r % 64];
  }

  lemma EncodeDecoded4(s: seq<byte>)
    requires |s| > 0 && DecodeInternal(s).size == 4
    ensures ValidRune(DecodeInternal(s).rune)
    ensures Encode(DecodeInternal(s).rune) == s[..4]
  {
    var c0: int, c1: int, c2: int, c3: int := s[0], s[1], s[2], s[3];
    Join4(c0, c1, c2, c3);
    var r := (c0 % 8) * 262144 + (c1 % 64) * 4096 + (c2 % 64) * 64 + c3 % 64;
    assert DecodeInternal(s).rune == r;
    assert Encode(r) == [T4 + r / 262144, TX + (r / 4096) % 64, TX + (r / 64) % 64, TX + r % 64];
  }

  lemma {:induction false} Join2(c0: int, c1: int)
    requires T2 <= c0 < T3 && TX <= c1 < T2
    ensures var r := (c0 % 32) * 64 + c1 % 64;
      r <= RUNE2MAX && c0 == T2 + r / 64 && c1 == TX + r % 64
  {
    assert c0 % 32 == c0 - T2;
    assert c1 % 64 == c1 - TX;
    var a, b := c0 % 32, c1 % 64;
    Div64(a, b);
  }

  lemma {:induction false} Join3(c0: int, c1: int, c2: int)
    requires T3 <= c0 < T4 && TX <= c1 < T2 && TX <= c2 < T2
    ensures var r := (c0 % 16) * 4096 + (c1 % 64) * 64 + c2 % 64;
      r <= RUNE3MAX && c0 == T3 + r / 4096 && c1 == TX + (r / 64) % 64 && c2 == TX + r % 64
  {
    assert c0 % 16 == c0 - T3;
    assert c1 % 64 == c1 - TX;
    assert c2 % 64 == c2 - TX;
    var a, b, c := c0 % 16, c1 % 64, c2 % 64;
    var q1 := a * 64 + b;
    var r := q1 * 64 + c;
    assert r == a * 4096 + b * 64 + c;
    Div64(q1, c);
    Div64(a, b);
    DivBy(r, 64, 4096);
  }

  lemma {:induction false} Join4(c0: int, c1: int, c2: int, c3: int)
    requires T4 <= c0 < T5 && TX <= c1 < T2 && TX <= c2 < T2 && TX <= c3 < T2
    ensures var r := (c0 % 8) * 262144 + (c1 % 64) * 4096 + (c2 % 64) * 64 + c3 % 64;
      c0 == T4 + r / 262144 && c1 == TX + (r / 4096) % 64 && c2 == TX + (r / 64) % 64 && c3 == TX + r % 64
  {
    assert c0 % 8 == c0 - T4;
    assert c1 % 64 == c1 - TX;
    assert c2 % 64 == c2 - TX;
    assert c3 % 64 == c3 - TX;
    var a, b, c, d := c0 % 8, c1 % 64, c2 % 64, c3 % 64;
    var q2 := a * 64 + b;
    var q1 := q2 * 64 + c;
    var r := q1 * 64 + d;
    assert r == a * 262144 + b * 4096 + c * 64 + d;
    Div64(q1, d);
    Div64(q2, c);
    Div64(a, b);
    DivBy(r, 64, 4096);
    DivBy(r, 4096, 262144);
  }

  lemma {:induction false} Div64(q: int, d: int)
    requires 0 <= d < 64
    ensures (q * 64 + d) / 64 == q && (q * 64 + d) % 64 == d
  {
  }

  /** Dividing by 64 twice steps from one power of 64 to the next. */
  lemma {:induction false} DivBy(x: int, m: int, n: int)
    requires 0 <= x && (m == 64 || m == 4096) && n == m * 64
    ensures x / n == (x / m) / 64
  {
    var q := x / n;
    var rest := x % n;
    assert x == q * n + rest;
    assert x == (q * 64 + rest / m) * m + rest % m;
  }

  function DecodeRune(s: seq<byte>): (d: SizedRune)
    ensures 0 <= d.size <= MAX_BYTES && d.size <= |s|
    ensures |s| == 0 <==> d == SizedRune(RUNE_ERROR, 0)
    ensures |s| > 0 && s[0] < RUNE_SELF ==> d == SizedRune(s[0], 1)
    ensures d == SizedRune(RUNE_ERROR, 1) <==> |s| > 0 && s[0] >= RUNE_SELF && d.size == 1
  {
    var d := DecodeInternal(s);
    SizedRune(d.rune, d.size)
  }

  /** The two top bits of `b` are not `10`: `b` does not continue a sequence. */
  predicate RuneStart(b: byte)
  {
    (b / 64) % 4 != 2
  }

  /* Forward decoding, stated for any decoder `dec` that consumes at least one
     byte of a non-empty input; the facts used about DecodeRune are then only
     those named by the predicates below. */

  ghost predicate Advances(dec: seq<byte> -> SizedRune)
  {
    forall t: seq<byte> :: |t| > 0 ==> 1 <= dec(t).size <= |t|
  }

  /** A step reads no byte past its own size. */
  ghost predicate Local(dec: seq<byte> -> SizedRune)
  {
    forall t: seq<byte>, b: int :: 0 <= dec(t).size <= b <= |t| ==> dec(t[..b]) == dec(t)
  }

  /** The bytes a step consumes after its first never satisfy `start`. */
  ghost predicate OnlyFirstStarts(dec: seq<byte> -> SizedRune, start: byte -> bool)
  {
    forall t: seq<byte>, j: int :: 1 <= j < dec(t).size && j < |t| ==> !start(t[j])
  }

  function Steps(dec: seq<byte> -> SizedRune, s: seq<byte>): seq<SizedRune>
    requires Advances(dec)
    decreases |s|
  {
    if |s| == 0 then [] else [dec(s)] + Steps(dec, s[dec(s).size..])
  }

  /** `p` is an offset at which a step starts (or the end). */
  predicate Boundary(dec: seq<byte> -> SizedRune, s: seq<byte>, p: int)
    requires Advances(dec)
    decreases |s|
  {
    p == 0 || (0 < |s| && dec(s).size <= p && Boundary(dec, s[dec(s).size..], p - dec(s).size))
  }

  lemma {:induction false} StepsSplit(dec: seq<byte> -> SizedRune, s: seq<byte>, p: int)
    requires Advances(dec) && Local(dec)
    requires 0 <= p <= |s| && Boundary(dec, s, p)
    ensures Steps(dec, s) == Steps(dec, s[..p]) + Steps(dec, s[p..])
    decreases |s|
  {
    if p == 0 {
      assert s[..0] == [] && s[0..] == s;
    } else {
      var d := dec(s);
      var k := d.size;
      var rest := s[k..];
      StepsSplit(dec, rest, p - k);
      assert dec(s[..p]) == d;
      assert s[..p][k..] == rest[..p - k];
      assert rest[p - k..] == s[p..];
      calc {
        Steps(dec, s);
        [d] + Steps(dec, rest);
        [d] + (Steps(dec, rest[..p - k]) + Steps(dec, s[p..]));
        ([d] + Steps(dec, s[..p][k..])) + Steps(dec, s[p..]);
        Steps(dec, s[..p]) + Steps(dec, s[p..]);
      }
    }
  }

  lemma {:induction false} StartIsBoundary(dec: seq<byte> -> SizedRune, start: byte -> bool, s: seq<byte>, i: int)
    requires Advances(dec) && OnlyFirstStarts(dec, start)
    requires 0 <= i < |s| && start(s[i])
    ensures Boundary(dec, s, i)
    decreases |s|
  {
    if i > 0 {
      var k := dec(s).size;
      if k > i {
        assert false;
      }
      StartIsBoundary(dec, start, s[k..], i - k);
    }
  }

  lemma {:induction false} LastOfSteps(dec: seq<byte> -> SizedRune, s: seq<byte>) returns (p: int)
    requires Advances(dec) && Local(dec)
    requires |s| > 0
    ensures 0 <= p < |s| && Boundary(dec, s, p)
    ensures dec(s[p..]).size == |s| - p
    ensures Steps(dec, s) == Steps(dec, s[..p]) + [dec(s[p..])]
    decreases |s|
  {
    var k := dec(s).size;
    var rest := s[k..];
    if |rest| == 0 {
      p := 0;
      assert s[..0] == [] && s[0..] == s;
    } else {
      var p' := LastOfSteps(dec, rest);
      p := k + p';
      assert rest[p'..] == s[p..];
      assert dec(s[..p]) == dec(s);
      assert s[..p][k..] == rest[..p'];
    }
  }

  /** A multi-byte sequence is a lead byte followed by continuation bytes. */
  lemma {:induction false} LongSequenceShape(s: seq<byte>)
    requires DecodeRune(s).size >= 2
    ensures RuneStart(s[0])
    ensures forall j :: 1 <= j < DecodeRune(s).size ==> !RuneStart(s[j])
  {
    var d := DecodeInternal(s);
    assert T2 <= s[0] && IsCont(s[1]);
    assert d.size >= 3 ==> IsCont(s[2]);
    assert d.size >= 4 ==> IsCont(s[3]);
    forall j | 1 <= j < d.size
      ensures !RuneStart(s[j])
    {
      ContNotStart(s[j]);
    }
  }

  /** A continuation byte 10xxxxxx does not start a rune. */
  lemma ContNotStart(b: byte)
    requires IsCont(b)
    ensures !RuneStart(b)
  {
    assert b / 64 == 2;
  }

  lemma {:induction false} DecodeRuneSteps()
    ensures Advances(DecodeRune) && Local(DecodeRune) && OnlyFirstStarts(DecodeRune, RuneStart)
  {
    forall t: seq<byte>, j: int | 1 <= j < DecodeRune(t).size && j < |t|
      ensures !RuneStart(t[j])
    {
      LongSequenceShape(t);
    }
  }

  /** The runes of `s` in order, as forward decoding finds them. */
  function Runes(s: seq<byte>): seq<SizedRune>
  {
    DecodeRuneSteps();
    Steps(DecodeRune, s)
  }

  predicate IsBoundary(s: seq<byte>, p: int)
  {
    DecodeRuneSteps();
    Boundary(DecodeRune, s, p)
  }

  lemma {:induction false} RunesCons(s: seq<byte>)
    requires |s| > 0
    ensures Runes(s) == [DecodeRune(s)] + Runes(s[DecodeRune(s).size..])
  {
    DecodeRuneSteps();
  }

  /** Forward decoding splits at every boundary. */
  lemma {:induction false} RunesSplit(s: seq<byte>, p: int)
    requires 0 <= p <= |s| && IsBoundary(s, p)
    ensures Runes(s) == Runes(s[..p]) + Runes(s[p..])
  {
    DecodeRuneSteps();
    StepsSplit(DecodeRune, s, p);
  }

  /** Forward decoding never steps over a byte that can start a rune. */
  lemma {:induction false} RuneStartIsBoundary(s: seq<byte>, i: int)
    requires 0 <= i < |s| && RuneStart(s[i])
    ensures IsBoundary(s, i)
  {
    DecodeRuneSteps();
    StartIsBoundary(DecodeRune, RuneStart, s, i);
  }

  /** The last forward step of a non-empty input starts at some boundary `p` and reaches the end. */
  lemma {:induction false} LastStep(s: seq<byte>) returns (p: int)
    requires |s| > 0
    ensures 0 <= p < |s| && IsBoundary(s, p)
    ensures DecodeRune(s[p..]).size == |s| - p
    ensures Runes(s) == Runes(s[..p]) + [DecodeRune(s[p..])]
  {
    DecodeRuneSteps();
    p := LastOfSteps(DecodeRune, s);
  }

  /** Scans down from `j` to `lim` for a byte that can start a rune; `lim - 1` (or `j` if already below) when none does. */
  function ScanBack(s: seq<byte>, j: int, lim: int): (r: int)
    requires 0 <= lim && j < |s|
    ensures r <= j && (r >= lim - 1 || r == j)
    ensures r >= lim ==> RuneStart(s[r])
    ensures forall k :: r < k <= j && lim <= k ==> !RuneStart(s[k])
    decreases j - lim + 1
  {
    if j < lim then j
    else if RuneStart(s[j]) then j
    else ScanBack(s, j - 1, lim)
  }

  /** The last rune of `s`, found by scanning back at most `MAX_BYTES` bytes for its start. */
  function DecodeLast(s: seq<byte>): (d: SizedRune)
    ensures |s| == 0 <==> d == SizedRune(RUNE_ERROR, 0)
    ensures |s| > 0 ==> 1 <= d.size <= |s|
  {
    var end := |s|;
    if end == 0 then SizedRune(RUNE_ERROR, 0)
    else if s[end - 1] < RUNE_SELF then SizedRune(s[end - 1], 1)
    else
      var lim := if end - MAX_BYTES < 0 then 0 else end - MAX_BYTES;
      var start0 := ScanBack(s, end - 2, lim);
      var start := if start0 < 0 then 0 else start0;
      var dr := DecodeRune(s[start..]);
      if start + dr.size != end then SizedRune(RUNE_ERROR, 1)
      else dr
  }

  /** Backward decoding of one rune agrees with the last step of forward decoding. */
  lemma {:induction false} DecodeLastIsLastStep(s: seq<byte>)
    requires |s| > 0
    ensures Runes(s) != [] && DecodeLast(s) == Runes(s)[|Runes(s)| - 1]
    ensures 1 <= DecodeLast(s).size <= |s|
  {
    var p := LastStep(s);
    if p < |s| - 1 {
      LastLong(s, p);
    } else if s[|s| - 1] >= RUNE_SELF {
      LastError(s, p);
    } else {
      assert s[p..] == [s[|s| - 1]];
    }
  }

  lemma {:induction false} LastLong(s: seq<byte>, p: int)
    requires 0 <= p < |s| - 1 && DecodeRune(s[p..]).size == |s| - p
    ensures DecodeLast(s) == DecodeRune(s[p..])
  {
    var end := |s|;
    LongSequenceShape(s[p..]);
    assert !RuneStart(s[p..][end - 1 - p]);
    assert s[end - 1] >= RUNE_SELF;
    var lim := if end - MAX_BYTES < 0 then 0 else end - MAX_BYTES;
    assert RuneStart(s[p..][0]);
    forall k | p < k <= end - 2
      ensures !RuneStart(s[k])
    {
      assert s[k] == s[p..][k - p];
    }
    assert ScanBack(s, end - 2, lim) == p;
  }

  lemma {:induction false} LastError(s: seq<byte>, p: int)
    requires |s| > 0 && p == |s| - 1 && s[p] >= RUNE_SELF
    requires Runes(s) == Runes(s[..p]) + [DecodeRune(s[p..])]
    ensures DecodeRune(s[p..]) == SizedRune(RUNE_ERROR, 1)
    ensures DecodeLast(s) == SizedRune(RUNE_ERROR, 1)
  {
    var end := |s|;
    assert s[p..] == [s[end - 1]];
    var lim := if end - MAX_BYTES < 0 then 0 else end - MAX_BYTES;
    var start0 := ScanBack(s, end - 2, lim);
    var start := if start0 < 0 then 0 else start0;
    if end > 1 {
      NoLongEnding(s, start);
    }
  }

  /** When forward decoding ends in a one-byte step, no multi-byte step reaches the end. */
  lemma {:induction false} NoLongEnding(s: seq<byte>, start: int)
    requires 0 <= start <= |s| - 2
    requires Runes(s) != [] && Runes(s)[|Runes(s)| - 1].size == 1
    ensures start + DecodeRune(s[start..]).size != |s|
  {
    var dr := DecodeRune(s[start..]);
    if start + dr.size == |s| {
      LongSequenceShape(s[start..]);
      RuneStartIsBoundary(s, start);
      RunesSplit(s, start);
      RunesCons(s[start..]);
    }
  }

  /** The runes of `s` as decoding backwards from the end finds them, in forward order. */
  function RunesBackward(s: seq<byte>): seq<SizedRune>
    decreases |s|
  {
    if |s| == 0 then []
    else
      var d := DecodeLast(s);
      RunesBackward(s[..|s| - d.size]) + [d]
  }

  /** Walking backwards yields the same runes, with the same sizes and hence offsets, as walking forwards. */
  lemma {:induction false} BackwardEqualsForward(s: seq<byte>)
    ensures RunesBackward(s) == Runes(s)
    decreases |s|
  {
    if |s| > 0 {
      var p := LastStep(s);
      DecodeLastIsLastStep(s);
      assert |s| - DecodeLast(s).size == p;
      BackwardEqualsForward(s[..p]);
    }
  }

  method DecodeLastRune(s: seq<byte>) returns (d: SizedRune)
    ensures d == DecodeLast(s)
    ensures |s| == 0 ==> d == SizedRune(RUNE_ERROR, 0)
    ensures |s| > 0 ==> Runes(s) != [] && d == Runes(s)[|Runes(s)| - 1]
  {
    var end := |s|;
    if end == 0 {
      return SizedRune(RUNE_ERROR, 0);
    }
    var start := end - 1;
    var r := s[start];
    if r < RUNE_SELF {
      DecodeLastIsLastStep(s);
      return SizedRune(r, 1);
    }
    var lim := end - MAX_BYTES;
    if lim < 0 {
      lim := 0;
    }
    start := start - 1;
    while start >= lim
      invariant lim - 1 <= start <= end - 2
      invariant ScanBack(s, start, lim) == ScanBack(s, end - 2, lim)
      decreases start
    {
      if RuneStart(s[start]) {
        break;
      }
      start := start - 1;
    }
    if start < 0 {
      start := 0;
    }
    var dr := DecodeRune(s[start..]);
    DecodeLastIsLastStep(s);
    if start + dr.size != end {
      return SizedRune(RUNE_ERROR, 1);
    }
    return dr;
  }

  /** Counts runes by stepping over one decoding step at a time. */
  method RuneCount(s: seq<byte>) returns (n: int)
    ensures n == |Runes(s)|
  {
    n := 0;
    var i := 0;
    while i < |s|
      invariant 0 <= i <= |s|
      invariant n + |Runes(s[i..])| == |Runes(s)|
      decreases |s| - i
    {
      RunesAt(s, i);
      var step := if s[i] < RUNE_SELF then 1 else DecodeRune(s[i..]).size;
      i := i + step;
      n := n + 1;
    }
    assert s[i..] == [];
  }

  /** No step of `ts` is the one-byte error step. */
  predicate NoError(ts: seq<SizedRune>)
  {
    forall k :: 0 <= k < |ts| ==> ts[k] != SizedRune(RUNE_ERROR, 1)
  }

  /** Forward decoding of `s` meets no error, i.e. no non-ASCII byte starts a one-byte step. */
  predicate WellFormed(s: seq<byte>)
  {
    NoError(Runes(s))
  }

  lemma {:induction false} NoErrorCons(d: SizedRune, ts: seq<SizedRune>)
    ensures NoError([d] + ts) == (d != SizedRune(RUNE_ERROR, 1) && NoError(ts))
  {
    if d != SizedRune(RUNE_ERROR, 1) && NoError(ts) {
      forall k | 0 <= k < |[d] + ts| ensures ([d] + ts)[k] != SizedRune(RUNE_ERROR, 1) {
        if k > 0 {
          assert ([d] + ts)[k] == ts[k - 1];
        }
      }
    } else if NoError([d] + ts) {
      assert ([d] + ts)[0] == d;
      forall k | 0 <= k < |ts| ensures ts[k] != SizedRune(RUNE_ERROR, 1) {
        assert ([d] + ts)[k + 1] == ts[k];
      }
    }
  }

  /** The remaining input starting at `i` decodes to its first step followed by the rest. */
  lemma {:induction false} RunesAt(s: seq<byte>, i: int)
    requires 0 <= i < |s|
    ensures var d := DecodeRune(s[i..]);
      1 <= d.size && i + d.size <= |s| && Runes(s[i..]) == [d] + Runes(s[i + d.size..])
  {
    var d := DecodeRune(s[i..]);
    RunesCons(s[i..]);
    assert s[i..][d.size..] == s[i + d.size..];
  }

  method Valid(s: seq<byte>) returns (ok: bool)
    ensures ok == WellFormed(s)
  {
    var i := 0;
    while i < |s|
      invariant 0 <= i <= |s|
      invariant WellFormed(s) == NoError(Runes(s[i..]))
      decreases |s| - i
    {
      RunesAt(s, i);
      NoErrorCons(DecodeRune(s[i..]), Runes(s[i + DecodeRune(s[i..]).size..]));
      if s[i] < RUNE_SELF {
        i := i + 1;
      } else {
        var size := DecodeRune(s[i..]).size;
        if size == 1 {
          return false;
        }
        i := i + size;
      }
    }
    assert s[i..] == [];
    return true;
  }

  function Values(ts: seq<SizedRune>): seq<int32>
  {
    if ts == [] then [] else [ts[0].rune] + Values(ts[1..])
  }

  /** The bytes of a sequence of runes, each encoded in turn. */
  function EncodeAll(rs: seq<int32>): seq<byte>
  {
    if rs == [] then [] else Encode(rs[0]) + EncodeAll(rs[1..])
  }

  predicate AllValid(rs: seq<int32>)
  {
    forall i :: 0 <= i < |rs| ==> ValidRune(rs[i])
  }

  lemma ValuesCons(d: SizedRune, ts: seq<SizedRune>)
    ensures Values([d] + ts) == [d.rune] + Values(ts)
  {
    assert ([d] + ts)[1..] == ts;
  }

  lemma EncodeAllCons(r: int32, rs: seq<int32>)
    ensures EncodeAll([r] + rs) == Encode(r) + EncodeAll(rs)
  {
    assert ([r] + rs)[1..] == rs;
  }

  lemma AllValidCons(r: int32, rs: seq<int32>)
    ensures AllValid([r] + rs) == (ValidRune(r) && AllValid(rs))
  {
    if ValidRune(r) && AllValid(rs) {
      forall i | 0 <= i < |[r] + rs|
        ensures ValidRune(([r] + rs)[i])
      {
        if i > 0 {
          assert ([r] + rs)[i] == rs[i - 1];
        }
      }
    }
    if AllValid([r] + rs) {
      assert ([r] + rs)[0] == r;
      forall i | 0 <= i < |rs|
        ensures ValidRune(rs[i])
      {
        assert rs[i] == ([r] + rs)[i + 1];
      }
    }
  }

  /** A well-formed byte string is exactly the encoding of the valid runes it decodes to. */
  lemma WellFormedIsEncoding(s: seq<byte>)
    requires WellFormed(s)
    ensures AllValid(Values(Runes(s)))
    ensures EncodeAll(Values(Runes(s))) == s
  {
    WellFormedValid(s);
    WellFormedEncodes(s);
  }

  /** One step of forward decoding of a well-formed string: a valid rune
      that re-encodes to the bytes it consumed, followed by a well-formed
      rest. */
  lemma WellFormedStep(s: seq<byte>)
    requires WellFormed(s) && |s| > 0
    ensures var d := DecodeRune(s);
      ValidRune(d.rune) && Encode(d.rune) == s[..d.size] &&
      WellFormed(s[d.size..]) &&
      Values(Runes(s)) == [d.rune] + Values(Runes(s[d.size..]))
  {
    var d := DecodeRune(s);
    var rest := s[d.size..];
    RunesCons(s);
    NoErrorCons(d, Runes(rest));
    EncodeDecoded(s);
    ValuesCons(d, Runes(rest));
  }

  lemma {:induction false} WellFormedValid(s: seq<byte>)
    requires WellFormed(s)
    ensures AllValid(Values(Runes(s)))
    decreases |s|
  {
    if |s| > 0 {
      var d := DecodeRune(s);
      WellFormedStep(s);
      WellFormedValid(s[d.size..]);
      AllValidCons(d.rune, Values(Runes(s[d.size..])));
    }
  }

  lemma {:induction false} WellFormedEncodes(s: seq<byte>)
    requires WellFormed(s)
    ensures EncodeAll(Values(Runes(s))) == s
    decreases |s|
  {
    if |s| > 0 {
      var d := DecodeRune(s);
      var rest := s[d.size..];
      WellFormedStep(s);
      WellFormedEncodes(rest);
      EncodesFrom(s, d, Values(Runes(rest)));
    }
  }

  lemma EncodesFrom(s: seq<byte>, d: SizedRune, vs: seq<int32>)
    requires 0 <= d.size <= |s| && Encode(d.rune) == s[..d.size] && EncodeAll(vs) == s[d.size..]
    ensures EncodeAll([d.rune] + vs) == s
  {
    EncodeAllCons(d.rune, vs);
    assert s == s[..d.size] + s[d.size..];
  }

  /** Encoding valid runes gives a well-formed string that decodes back to them. */
  lemma {:induction false} EncodingIsWellFormed(rs: seq<int32>)
    requires AllValid(rs)
    ensures WellFormed(EncodeAll(rs))
    ensures Values(Runes(EncodeAll(rs))) == rs
  {
    if rs != [] {
      var s := EncodeAll(rs);
      var e := Encode(rs[0]);
      assert rs == [rs[0]] + rs[1..];
      AllValidCons(rs[0], rs[1..]);
      DecodeEncode(rs[0], EncodeAll(rs[1..]));
      assert s[|e|..] == EncodeAll(rs[1..]);
      RunesCons(s);
      EncodingIsWellFormed(rs[1..]);
      NoErrorCons(DecodeRune(s), Runes(EncodeAll(rs[1..])));
    }
  }

  /** Bytes appended after a complete sequence do not change how it decodes. */
  function FullRune(s: seq<byte>): (full: bool)
    ensures full ==> forall t :: DecodeRune(s + t) == DecodeRune(s)
    ensures !full ==> |s| < MAX_BYTES && DecodeRune(s).rune == RUNE_ERROR && DecodeRune(s).size == (if |s| == 0 then 0 else 1)
  {
    !DecodeInternal(s).incomplete
  }

  function RuneLength(r: int32): (n: int)
    ensures ValidRune(r) ==> n == |Encode(r)|
    ensures !ValidRune(r) ==> n == -1
  {
    if r < 0 then -1
    else if r <= RUNE1MAX then 1
    else if r <= RUNE2MAX then 2
    else if SURROGATE_MIN <= r <= SURROGATE_MAX then -1
    else if r <= RUNE3MAX then 3
    else if r <= RUNE_MAX then 4
    else -1
  }

  /** An invalid rune is encoded as `RUNE_ERROR`. */
  lemma {:induction false} EncodeInvalid(r: int32)
    requires !ValidRune(r)
    ensures Encode(r) == Encode(RUNE_ERROR) == [0xEF, 0xBF, 0xBD]
  {
  }

  /** A rune survives encoding and decoding exactly when it is valid. */
  lemma {:induction false} ValidRuneRoundTrip(r: int32)
    ensures ValidRune(r) <==> DecodeRune(Encode(r)) == SizedRune(r, |Encode(r)|)
  {
    assert Encode(r) + [] == Encode(r);
    if ValidRune(r) {
      DecodeEncode(r, []);
    } else {
      EncodeInvalid(r);
      DecodeEncode(RUNE_ERROR, []);
    }
  }

  /** Writes the encoding of `r` to the front of `s` and returns its length. */
  method EncodeRune(s: array<byte>, r: int32) returns (n: int)
    requires s.Length >= |Encode(r)|
    modifies s
    ensures n == |Encode(r)| && s[..n] == Encode(r) && s[n..] == old(s[n..])
  {
    var ur := Unsigned(r);
    if ur <= RUNE1MAX {
      s[0] := r;
      return 1;
    }
    if ur <= RUNE2MAX {
      s[0] := T2 + r / 64;
      s[1] := TX + r % 64;
      return 2;
    }
    var v := r;
    if ur > RUNE_MAX {
      v := RUNE_ERROR;
    }
    if SURROGATE_MIN <= v <= SURROGATE_MAX {
      v := RUNE_ERROR;
    }
    if v <= RUNE3MAX {
      s[0] := T3 + v / 4096;
      s[1] := TX + (v / 64) % 64;
      s[2] := TX + v % 64;
      return 3;
    }
    s[0] := T4 + v / 262144;
    s[1] := TX + (v / 4096) % 64;
    s[2] := TX + (v / 64) % 64;
    s[3] := TX + v % 64;
    return 4;
  }
}
