/** Lexical path cleaning (clean_path in OS/IO.cpp). A path is a sequence
    of '/'-separated elements; cleaning drops empty and "." elements, lets
    ".." cancel the name before it, keeps leading ".." elements of a
    relative path and drops those of a rooted one, and renders the result
    with single slashes and no trailing slash ("." when nothing is left).
    The specification below works on elements; CleanPath is the in-place
    rewrite with the r, dst and dotdot cursors, proved equal to it. */
module PathClean {

  predicate NoSlash(e: string)
  {
    forall i :: 0 <= i < |e| ==> e[i] != '/'
  }

  /** An element kept as a name: non-empty, no '/', neither "." nor "..". */
  predicate Proper(e: string)
  {
    |e| > 0 && NoSlash(e) && e != "." && e != ".."
  }

  /** Length of the element at the front of p: up to the first '/' or the end. */
  function ElemLen(p: string): nat
  {
    if p == [] || p[0] == '/' then 0 else 1 + ElemLen(p[1..])
  }

  lemma {:induction false} ElemLenFacts(p: string)
    ensures ElemLen(p) <= |p| && NoSlash(p[..ElemLen(p)])
    ensures ElemLen(p) < |p| ==> p[ElemLen(p)] == '/'
    ensures p != [] && p[0] != '/' ==> ElemLen(p) >= 1
  {
    if p != [] && p[0] != '/' {
      ElemLenFacts(p[1..]);
      assert p[..ElemLen(p)] == [p[0]] + p[1..][..ElemLen(p[1..])];
    }
  }

  /** The non-empty '/'-separated elements of p, in order. */
  function Elements(p: string): seq<string>
    decreases |p|
  {
    if p == [] then []
    else if p[0] == '/' then Elements(p[1..])
    else
      ElemLenFacts(p);
      [p[..ElemLen(p)]] + Elements(p[ElemLen(p)..])
  }

  /** The cleaned path so far: `ups` leading ".." elements (only in a
      relative path) followed by proper names. */
  datatype Stack = Stack(ups: nat, names: seq<string>)

  /** The effect of one element. */
  function Push(rooted: bool, st: Stack, e: string): Stack
  {
    if e == "." then st
    else if e == ".." then
      if |st.names| > 0 then Stack(st.ups, st.names[..|st.names| - 1])
      else if rooted then st
      else Stack(st.ups + 1, st.names)
    else Stack(st.ups, st.names + [e])
  }

  function Reduce(rooted: bool, st: Stack, es: seq<string>): Stack
    decreases |es|
  {
    if es == [] then st else Reduce(rooted, Push(rooted, st, es[0]), es[1..])
  }

  function Repeat(e: string, n: nat): seq<string>
  {
    if n == 0 then [] else Repeat(e, n - 1) + [e]
  }

  /** The elements joined with single slashes. */
  function Join(xs: seq<string>): string
  {
    if xs == [] then "" else if |xs| == 1 then xs[0] else Join(xs[..|xs| - 1]) + "/" + xs[|xs| - 1]
  }

  /** The text of a stack: a leading '/' when rooted, then its elements. */
  function Render(rooted: bool, st: Stack): string
  {
    (if rooted then "/" else "") + Join(Repeat("..", st.ups) + st.names)
  }

  /** The cleaned form of p. */
  function Clean(p: string): string
  {
    if p == [] then "."
    else
      var rooted := p[0] == '/';
      var out := Render(rooted, Reduce(rooted, Stack(0, []), Elements(p)));
      if out == [] then "." else out
  }

  /** A stack that cleaning can produce: names are proper, and a rooted path
      has no leading "..". */
  ghost predicate Reachable(rooted: bool, st: Stack)
  {
    (rooted ==> st.ups == 0) && forall i :: 0 <= i < |st.names| ==> Proper(st.names[i])
  }

  /** Every element is non-empty and has no '/'. */
  lemma {:induction false} ElementsShape(p: string)
    ensures forall i :: 0 <= i < |Elements(p)| ==> |Elements(p)[i]| > 0 && NoSlash(Elements(p)[i])
    decreases |p|
  {
    if p != [] {
      ElemLenFacts(p);
      if p[0] == '/' {
        ElementsShape(p[1..]);
      } else {
        ElementsShape(p[ElemLen(p)..]);
      }
    }
  }

  lemma {:induction false} ReduceReachable(rooted: bool, st: Stack, es: seq<string>)
    requires Reachable(rooted, st)
    requires forall i :: 0 <= i < |es| ==> |es[i]| > 0 && NoSlash(es[i])
    ensures Reachable(rooted, Reduce(rooted, st, es))
    decreases |es|
  {
    if es != [] {
      ReduceReachable(rooted, Push(rooted, st, es[0]), es[1..]);
    }
  }

  // ---------------------------------------------------------------------
  // Rendering facts used by the in-place rewrite.

  lemma {:induction false} JoinLength(xs: seq<string>)
    ensures |Join(xs)| == 0 <==> (xs == [] || (|xs| == 1 && xs[0] == []))
  {
    if |xs| > 1 {
      assert |Join(xs)| >= 1;
    }
  }

  /** Appending one element to a non-empty list adds a slash and the element. */
  lemma JoinSnoc(xs: seq<string>, e: string)
    ensures Join(xs + [e]) == if xs == [] then e else Join(xs) + "/" + e
  {
    assert (xs + [e])[..|xs|] == xs;
  }

  lemma {:induction false} RepeatNoEmpty(n: nat)
    ensures |Repeat("..", n)| == n
    ensures forall i :: 0 <= i < n ==> Repeat("..", n)[i] == ".."
  {
    if n > 0 {
      RepeatNoEmpty(n - 1);
    }
  }

  /** The length of the rendered leading part: the position dotdot marks. */
  function UpsLength(rooted: bool, ups: nat): nat
  {
    if rooted then 1 else if ups == 0 then 0 else 3 * ups - 1
  }

  lemma {:induction false} RenderUps(rooted: bool, ups: nat)
    requires rooted ==> ups == 0
    ensures |Render(rooted, Stack(ups, []))| == UpsLength(rooted, ups)
  {
    if ups > 0 {
      RenderUps(rooted, ups - 1);
      JoinSnoc(Repeat("..", ups - 1), "..");
      assert Repeat("..", ups) + [] == Repeat("..", ups - 1) + [".."];
      assert Repeat("..", ups - 1) + [] == Repeat("..", ups - 1);
    }
  }

  /** Rendering after a name is pushed: a slash unless nothing precedes it. */
  lemma RenderName(rooted: bool, st: Stack, e: string)
    requires Reachable(rooted, st) && Proper(e)
    ensures Render(rooted, Stack(st.ups, st.names + [e])) ==
      Render(rooted, st) + (if |Render(rooted, st)| == UpsLength(rooted, 0) then "" else "/") + e
  {
    var xs := Repeat("..", st.ups) + st.names;
    var root: string := if rooted then "/" else "";
    assert Repeat("..", st.ups) + (st.names + [e]) == xs + [e];
    JoinSnoc(xs, e);
    if xs == [] {
      assert Render(rooted, st) == root;
    } else {
      RepeatNoEmpty(st.ups);
      assert xs[0] != [] by {
        if st.ups == 0 { assert xs[0] == st.names[0]; }
      }
      JoinLength(xs);
      assert root + (Join(xs) + "/" + e) == (root + Join(xs)) + "/" + e;
    }
  }

  /** Rendering after a ".." is kept: a slash unless it is the first. */
  lemma RenderUp(ups: nat)
    ensures Render(false, Stack(ups + 1, [])) ==
      Render(false, Stack(ups, [])) + (if ups == 0 then "" else "/") + ".."
  {
    assert Repeat("..", ups + 1) + [] == Repeat("..", ups) + [".."];
    assert Repeat("..", ups) + [] == Repeat("..", ups);
    JoinSnoc(Repeat("..", ups), "..");
    if ups > 0 {
      RepeatNoEmpty(ups);
      JoinLength(Repeat("..", ups));
    }
  }

  /** A rendered stack with names is longer than its leading part. */
  lemma RenderLonger(rooted: bool, st: Stack)
    requires Reachable(rooted, st)
    ensures |Render(rooted, st)| >= UpsLength(rooted, st.ups)
    ensures |Render(rooted, st)| > UpsLength(rooted, st.ups) <==> |st.names| > 0
    decreases |st.names|
  {
    RenderUps(rooted, st.ups);
    if |st.names| > 0 {
      var init := Stack(st.ups, st.names[..|st.names| - 1]);
      var e := st.names[|st.names| - 1];
      assert init.names + [e] == st.names;
      RenderLonger(rooted, init);
      RenderName(rooted, init, e);
    } else {
      assert st == Stack(st.ups, []);
    }
  }

  // ---------------------------------------------------------------------
  // Element scanning facts.

  /** A leading '/' is skipped. */
  lemma ElementsSlash(p: string, r: int)
    requires 0 <= r < |p| && p[r] == '/'
    ensures Elements(p[r..]) == Elements(p[r + 1..])
  {
    assert p[r..][1..] == p[r + 1..];
  }

  /** An element at r runs to the next '/' or the end. */
  lemma ElementsHead(p: string, r: int)
    requires 0 <= r < |p| && p[r] != '/'
    ensures var k := ElemLen(p[r..]);
      1 <= k && r + k <= |p| && (r + k < |p| ==> p[r + k] == '/') && NoSlash(p[r..r + k]) &&
      Elements(p[r..]) == [p[r..r + k]] + Elements(p[r + k..])
  {
    var k := ElemLen(p[r..]);
    ElemLenFacts(p[r..]);
    assert p[r..][..k] == p[r..r + k];
    assert p[r..][k..] == p[r + k..];
  }

  /** The element that starts at r and ends at the next separator. */
  lemma ElementEnd(p: string, r: int, e: int)
    requires 0 <= r < e <= |p| && NoSlash(p[r..e]) && (e < |p| ==> p[e] == '/')
    ensures ElemLen(p[r..]) == e - r
    decreases e - r
  {
    if e - r > 1 {
      assert p[r..][1..] == p[r + 1..];
      assert p[r + 1..e] == p[r..e][1..];
      ElementEnd(p, r + 1, e);
    } else {
      assert p[r..][1..] == p[r + 1..];
      assert p[r] == p[r..e][0];
    }
  }

  // ---------------------------------------------------------------------
  // The in-place rewrite.

  /** State of the rewrite loop: the text before dst renders st, the text
      from r on is still the input, r sits at an element boundary, and
      reducing the unread elements onto st gives the final stack. */
  ghost predicate Inv(s: seq<char>, p: string, rooted: bool, st: Stack, r: int, dst: int, dotdot: int)
  {
    var start := if rooted then 1 else 0;
    |s| == |p| && p != [] && rooted == (p[0] == '/') &&
    start <= dst <= r <= |p| && s[r..] == p[r..] && s[..dst] == Render(rooted, st) &&
    Reachable(rooted, st) && dotdot == UpsLength(rooted, st.ups) &&
    (r < |p| && p[r] != '/' ==> r == 0 || p[r - 1] == '/') &&
    (r < |p| && p[r] != '/' && dst > start ==> dst < r) &&
    Reduce(rooted, st, Elements(p[r..])) == Reduce(rooted, Stack(0, []), Elements(p))
  }

  /** `clean_path(str)`: the cleaned form, rewritten in place in a copy of
      the input and never longer than a non-empty input. */
  method CleanPath(p: string) returns (out: string)
    ensures out == Clean(p)
    ensures p != [] ==> |out| <= |p|
  {
    if p == [] {
      return ".";
    }
    var s := new char[|p|](i requires 0 <= i < |p| => p[i]);
    var rooted := s[0] == '/';
    var n := s.Length;
    var dst, r, dotdot := 0, 0, 0;
    if rooted {
      dst, r, dotdot := 1, 1, 1;
    }
    ghost var st := Stack(0, []);
    InvInit(s[..], p, rooted, r);
    while r < n
      invariant Inv(s[..], p, rooted, st, r, dst, dotdot)
      decreases n - r
    {
      if s[r] == '/' {
        SkipStep(s[..], p, rooted, st, r, dst, dotdot);
        r := r + 1;
      } else if s[r] == '.' && (r + 1 == n || s[r + 1] == '/') {
        SkipStep(s[..], p, rooted, st, r, dst, dotdot);
        r := r + 1;
      } else if s[r] == '.' && s[r + 1] == '.' && (r + 2 == n || s[r + 2] == '/') {
        st, r, dst, dotdot := DotDot(s, p, rooted, st, r, dst, dotdot);
      } else {
        st, r, dst := CopyName(s, p, rooted, st, r, dst, dotdot);
      }
    }
    InvDone(s[..], p, rooted, st, dst, dotdot);
    if dst == 0 {
      s[dst] := '.';
      dst := dst + 1;
    }
    out := s[..dst];
  }

  /** The state before the loop: nothing written, nothing read past the root. */
  lemma InvInit(s: seq<char>, p: string, rooted: bool, r: int)
    requires p != [] && s == p && rooted == (p[0] == '/') && r == (if rooted then 1 else 0)
    ensures Inv(s, p, rooted, Stack(0, []), r, r, r)
  {
    if rooted {
      assert p[1..] == p[0..][1..];
    }
    assert p[0..] == p;
    assert Render(rooted, Stack(0, [])) == (if rooted then "/" else "");
  }

  /** A '/' or a "." element is read past without writing. */
  lemma SkipStep(s: seq<char>, p: string, rooted: bool, st: Stack, r: int, dst: int, dotdot: int)
    requires Inv(s, p, rooted, st, r, dst, dotdot) && r < |s|
    requires s[r] == '/' || (s[r] == '.' && (r + 1 == |s| || s[r + 1] == '/'))
    ensures Inv(s, p, rooted, st, r + 1, dst, dotdot)
  {
    assert p[r] == s[r];
    if s[r] == '/' {
      ElementsSlash(p, r);
    } else {
      assert r + 1 < |p| ==> p[r + 1] == s[r + 1];
      ElementEnd(p, r, r + 1);
      ReduceHead(p, rooted, st, r, Reduce(rooted, Stack(0, []), Elements(p)));
      assert p[r..r + 1] == ".";
    }
  }

  /** After the loop the text renders the final stack; it is empty only
      when the cleaned form is ".". */
  lemma InvDone(s: seq<char>, p: string, rooted: bool, st: Stack, dst: int, dotdot: int)
    requires Inv(s, p, rooted, st, |p|, dst, dotdot)
    ensures dst <= |p| && (if dst == 0 then "." else s[..dst]) == Clean(p)
  {
    assert p[|p|..] == [];
  }

  /** Reading the element at r moves the continuation past it. */
  lemma ReduceHead(p: string, rooted: bool, st: Stack, r: int, final: Stack)
    requires 0 <= r < |p| && p[r] != '/' && Reduce(rooted, st, Elements(p[r..])) == final
    ensures var k := ElemLen(p[r..]);
      r + k <= |p| && Reduce(rooted, Push(rooted, st, p[r..r + k]), Elements(p[r + k..])) == final
  {
    ElementsHead(p, r);
  }

  /** The ".." branch: back up over the last name, or keep the ".." in a
      relative path with no names, or drop it at the root. */
  method DotDot(s: array<char>, ghost p: string, rooted: bool, ghost st: Stack, r: int, dst: int, dotdot: int)
    returns (ghost st': Stack, r': int, dst': int, dotdot': int)
    requires Inv(s[..], p, rooted, st, r, dst, dotdot)
    requires r + 1 < s.Length && s[r] == '.' && s[r + 1] == '.' && (r + 2 == s.Length || s[r + 2] == '/')
    modifies s
    ensures Inv(s[..], p, rooted, st', r', dst', dotdot') && r' == r + 2
  {
    ghost var s0 := s[..];
    DotDotElement(s0, p, rooted, st, r, dst, dotdot);
    r' := r + 2;
    RenderLonger(rooted, st);
    if dst > dotdot {
      st' := Stack(st.ups, st.names[..|st.names| - 1]);
      dst' := PopName(s, p, rooted, st, r, dst, dotdot);
      dotdot' := dotdot;
    } else if !rooted {
      assert p[r] == '.' && dst <= r;
      dst' := WriteUp(s, dst);
      dotdot' := dst';
      st' := Stack(st.ups + 1, []);
      ghost var s1 := s[..];
      UpStep(s0, s1, p, st, r, dst, dotdot, dst');
    } else {
      st', dst', dotdot' := st, dst, dotdot;
      RootStep(s0, p, st, r, dst, dotdot);
    }
  }

  /** ".." after a name: back dst up to the end of the text before it. */
  method PopName(s: array<char>, ghost p: string, rooted: bool, ghost st: Stack, r: int, dst: int, dotdot: int)
    returns (dst': int)
    requires Inv(s[..], p, rooted, st, r, dst, dotdot) && |st.names| > 0
    requires r + 1 < s.Length && ElemLen(p[r..]) == 2 && p[r..r + 2] == ".."
    requires Reduce(rooted, Push(rooted, st, ".."), Elements(p[r + 2..])) == Reduce(rooted, Stack(0, []), Elements(p))
    ensures Inv(s[..], p, rooted, Stack(st.ups, st.names[..|st.names| - 1]), r + 2, dst', dotdot)
  {
    ghost var s0 := s[..];
    ghost var cut, from := PopShape(s0, rooted, st, dst, dotdot);
    dst' := BackUp(s, dst, dotdot, cut, from);
    PopStep(s0, p, rooted, st, r, dst, dotdot, dst');
    assert s[..] == s0;
  }

  /** ".." at the root is dropped. */
  lemma RootStep(s: seq<char>, p: string, st: Stack, r: int, dst: int, dotdot: int)
    requires Inv(s, p, true, st, r, dst, dotdot) && |st.names| == 0
    requires r + 1 < |s| && ElemLen(p[r..]) == 2 && p[r..r + 2] == ".."
    requires Reduce(true, Push(true, st, ".."), Elements(p[r + 2..])) == Reduce(true, Stack(0, []), Elements(p))
    ensures Inv(s, p, true, st, r + 2, dst, dotdot)
  {
    assert Push(true, st, "..") == st;
    assert s[r + 2..] == s[r..][2..];
    assert p[r + 2..] == p[r..][2..];
  }

  /** The element at r is "..", and reducing it is a Push of "..". */
  lemma DotDotElement(s: seq<char>, p: string, rooted: bool, st: Stack, r: int, dst: int, dotdot: int)
    requires Inv(s, p, rooted, st, r, dst, dotdot)
    requires r + 1 < |s| && s[r] == '.' && s[r + 1] == '.' && (r + 2 == |s| || s[r + 2] == '/')
    ensures ElemLen(p[r..]) == 2 && p[r..r + 2] == ".."
    ensures Reduce(rooted, Push(rooted, st, ".."), Elements(p[r + 2..])) == Reduce(rooted, Stack(0, []), Elements(p))
  {
    assert p[r] == s[r] && p[r + 1] == s[r + 1];
    assert r + 2 < |p| ==> p[r + 2] == s[r + 2];
    assert p[r..r + 2] == "..";
    ElementEnd(p, r, r + 2);
    ReduceHead(p, rooted, st, r, Reduce(rooted, Stack(0, []), Elements(p)));
  }

  /** ".." after a name: the text up to the backed-up dst renders the stack
      without its last name. */
  lemma PopStep(s: seq<char>, p: string, rooted: bool, st: Stack, r: int, dst: int, dotdot: int, dst': int)
    requires Inv(s, p, rooted, st, r, dst, dotdot) && |st.names| > 0
    requires r + 1 < |s| && ElemLen(p[r..]) == 2 && p[r..r + 2] == ".."
    requires Reduce(rooted, Push(rooted, st, ".."), Elements(p[r + 2..])) == Reduce(rooted, Stack(0, []), Elements(p))
    requires 0 <= dst' < dst && s[..dst'] == Render(rooted, Stack(st.ups, st.names[..|st.names| - 1]))
    ensures Inv(s, p, rooted, Stack(st.ups, st.names[..|st.names| - 1]), r + 2, dst', dotdot)
  {
    var st' := Stack(st.ups, st.names[..|st.names| - 1]);
    assert Reachable(rooted, st') by {
      forall i | 0 <= i < |st'.names| ensures Proper(st'.names[i]) {
        assert st'.names[i] == st.names[i];
      }
    }
    RenderLonger(rooted, st');
    RenderUps(rooted, 0);
  }

  /** Writes "/.." at dst, or ".." when dst is 0. */
  method WriteUp(s: array<char>, dst: int) returns (dst': int)
    requires 0 <= dst && dst + (if dst > 0 then 3 else 2) <= s.Length
    modifies s
    ensures dst' == dst + (if dst > 0 then 3 else 2)
    ensures s[..dst'] == old(s[..dst]) + (if dst > 0 then "/" else "") + ".."
    ensures forall i :: dst' <= i < s.Length ==> s[i] == old(s[i])
  {
    dst' := dst;
    if dst' > 0 {
      s[dst'] := '/';
      dst' := dst' + 1;
    }
    s[dst'] := '.';
    s[dst' + 1] := '.';
    dst' := dst' + 2;
    assert s[..dst'] == old(s[..dst]) + (if dst > 0 then "/" else "") + "..";
  }

  /** ".." kept in a relative path with no names. */
  lemma UpStep(s: seq<char>, s': seq<char>, p: string, st: Stack, r: int, dst: int, dotdot: int, dst': int)
    requires Inv(s, p, false, st, r, dst, dotdot) && |st.names| == 0
    requires r + 1 < |s| && ElemLen(p[r..]) == 2 && p[r..r + 2] == ".."
    requires Reduce(false, Push(false, st, ".."), Elements(p[r + 2..])) == Reduce(false, Stack(0, []), Elements(p))
    requires |s'| == |s| && dst' == dst + (if dst > 0 then 3 else 2) <= |s'| && forall i :: dst' <= i < |s| ==> s'[i] == s[i]
    requires s'[..dst'] == s[..dst] + (if dst > 0 then "/" else "") + ".."
    ensures Inv(s', p, false, Stack(st.ups + 1, []), r + 2, dst', dst')
  {
    var st' := Stack(st.ups + 1, []);
    assert st == Stack(st.ups, []);
    assert s'[..dst'] == Render(false, st') by {
      RenderUp(st.ups);
    }
    assert dst' == UpsLength(false, st'.ups) by {
      RenderUps(false, st.ups);
    }
    assert s'[r + 2..] == p[r + 2..] by {
      SuffixFrom(s, s', p, r, r + 2);
    }
    assert Push(false, st, "..") == st';
  }

  /** The unread text is still the input after a write that stays before j. */
  lemma SuffixFrom(s: seq<char>, s': seq<char>, p: string, r: int, j: int)
    requires 0 <= r <= j <= |p| == |s| == |s'| && s[r..] == p[r..]
    requires forall i :: j <= i < |s| ==> s'[i] == s[i]
    ensures s'[j..] == p[j..]
  {
    assert forall i :: j <= i < |s| ==> s[i] == s[r..][i - r];
  }

  /** The text of a stack whose last name is e: the text without it, a
      slash unless nothing precedes it, and e. */
  lemma PopShape(s: seq<char>, rooted: bool, st: Stack, dst: int, dotdot: int) returns (cut: int, from: int)
    requires Reachable(rooted, st) && |st.names| > 0
    requires 0 <= dst <= |s| && s[..dst] == Render(rooted, st) && dotdot == UpsLength(rooted, st.ups)
    ensures 0 <= dotdot <= cut <= from < dst && s[..cut] == Render(rooted, Stack(st.ups, st.names[..|st.names| - 1]))
    ensures from == cut ==> dotdot == cut
    ensures from != cut ==> from == cut + 1 && s[cut] == '/'
    ensures forall i :: from <= i < dst ==> s[i] != '/'
  {
    var init := Stack(st.ups, st.names[..|st.names| - 1]);
    var e := st.names[|st.names| - 1];
    assert init.names + [e] == st.names;
    RenderName(rooted, init, e);
    RenderLonger(rooted, init);
    cut := |Render(rooted, init)|;
    from := if cut == UpsLength(rooted, 0) then cut else cut + 1;
    assert s[from..dst] == e;
    assert forall i :: from <= i < dst ==> s[i] == e[i - from];
    assert s[..cut] == s[..dst][..cut];
  }

  /** The backward scan after "..": from dst - 1 down while above dotdot and
      not at a '/'. It stops at cut, the end of the text before the last name. */
  method BackUp(s: array<char>, dst: int, dotdot: int, ghost cut: int, ghost from: int) returns (dst': int)
    requires 0 <= dotdot <= cut <= from < dst <= s.Length
    requires from == cut ==> dotdot == cut
    requires from != cut ==> from == cut + 1 && s[cut] == '/'
    requires forall i :: from <= i < dst ==> s[i] != '/'
    ensures dst' == cut
  {
    dst' := dst - 1;
    while dst' > dotdot && s[dst'] != '/'
      invariant cut <= dst' < dst
    {
      dst' := dst' - 1;
    }
  }

  /** A name element: a slash unless nothing precedes it, then the
      element's characters up to the next '/' or the end. */
  method CopyName(s: array<char>, ghost p: string, rooted: bool, ghost st: Stack, r: int, dst: int, dotdot: int)
    returns (ghost st': Stack, r': int, dst': int)
    requires Inv(s[..], p, rooted, st, r, dst, dotdot)
    requires r < s.Length && s[r] != '/'
    requires !(s[r] == '.' && (r + 1 == s.Length || s[r + 1] == '/'))
    requires !(s[r] == '.' && r + 1 < s.Length && s[r + 1] == '.' && (r + 2 == s.Length || s[r + 2] == '/'))
    modifies s
    ensures Inv(s[..], p, rooted, st', r', dst', dotdot) && r' > r
  {
    ghost var s0 := s[..];
    ghost var k := NameElement(s0, p, rooted, r, dst);
    var slash := (rooted && dst != 1) || (!rooted && dst != 0);
    assert slash == (dst != (if rooted then 1 else 0));
    SuffixAt(s0, p, r);
    r', dst' := WriteName(s, p, r, dst, k, slash);
    ghost var s1 := s[..];
    assert r' == r + k;
    st' := Stack(st.ups, st.names + [p[r..r + k]]);
    NameStep(s0, s1, p, rooted, st, r, dst, dotdot, k, dst');
  }

  /** The element at r is a name of length k, and dst leaves room for a slash. */
  lemma NameElement(s: seq<char>, p: string, rooted: bool, r: int, dst: int) returns (k: int)
    requires 0 <= r < |s| == |p| && s[r..] == p[r..] && s[r] != '/'
    requires (if rooted then 1 else 0) <= dst <= r && (dst > (if rooted then 1 else 0) ==> dst < r)
    requires !(s[r] == '.' && (r + 1 == |s| || s[r + 1] == '/'))
    requires !(s[r] == '.' && r + 1 < |s| && s[r + 1] == '.' && (r + 2 == |s| || s[r + 2] == '/'))
    ensures k == ElemLen(p[r..]) && 1 <= k && r + k <= |p| && Proper(p[r..r + k])
    ensures r + k < |p| ==> p[r + k] == '/'
    ensures dst + (if dst == (if rooted then 1 else 0) then 0 else 1) <= r
  {
    assert p[r] == s[r..][0];
    assert r + 1 < |p| ==> p[r + 1] == s[r..][1];
    assert r + 2 < |p| ==> p[r + 2] == s[r..][2];
    ElementsHead(p, r);
    k := ElemLen(p[r..]);
    var e := p[r..r + k];
    assert e != "." && e != ".." by {
      if k == 1 { assert e[0] == p[r]; }
      if k == 2 { assert e[0] == p[r] && e[1] == p[r + 1]; }
    }
  }

  /** Writes an optional slash at dst, then copies the k characters of the
      name at r. dst never passes r. */
  method WriteName(s: array<char>, ghost p: string, r: int, dst: int, ghost k: int, slash: bool) returns (r': int, dst': int)
    requires 0 <= dst && dst + (if slash then 1 else 0) <= r && r + k <= |p| == s.Length && 1 <= k
    requires (forall i :: r <= i < |p| ==> s[i] == p[i]) && NoSlash(p[r..r + k]) && (r + k < |p| ==> p[r + k] == '/')
    modifies s
    ensures r' == r + k && dst' == dst + (if slash then 1 else 0) + k
    ensures s[..dst'] == old(s[..dst]) + (if slash then "/" else "") + p[r..r + k]
    ensures forall i :: r' <= i < |p| ==> s[i] == p[i]
  {
    dst' := dst;
    if slash {
      s[dst'] := '/';
      dst' := dst' + 1;
    }
    ghost var head := s[..dst'];
    assert head == old(s[..dst]) + (if slash then "/" else "");
    assert forall i :: r <= i < r + k ==> p[i] == p[r..r + k][i - r];
    ghost var d0 := dst';
    r', dst' := CopyChars(s, p, r, dst', k);
    Assemble(s[..], head, p, r, k, d0);
  }

  /** The copy loop `while (r < n && s[r] != '/') s[dst++] = s[r++];`. */
  method CopyChars(s: array<char>, ghost p: string, r: int, dst: int, ghost k: int) returns (r': int, dst': int)
    requires 0 <= dst <= r && r + k <= |p| == s.Length && 1 <= k
    requires forall i :: r <= i < s.Length ==> s[i] == p[i]
    requires forall i :: r <= i < r + k ==> p[i] != '/'
    requires r + k < |p| ==> p[r + k] == '/'
    modifies s
    ensures r' == r + k && dst' == dst + k
    ensures forall i :: 0 <= i < dst ==> s[i] == old(s[i])
    ensures forall i :: dst <= i < dst' ==> s[i] == p[i - dst + r]
    ensures forall i :: r' <= i < s.Length ==> s[i] == p[i]
  {
    r', dst' := r, dst;
    while r' < s.Length && s[r'] != '/'
      invariant r <= r' <= r + k && dst' == dst + (r' - r) && dst' <= r'
      invariant forall i :: 0 <= i < dst ==> s[i] == old(s[i])
      invariant forall i :: dst <= i < dst' ==> s[i] == p[i - dst + r]
      invariant forall i :: r' <= i < s.Length ==> s[i] == p[i]
      decreases s.Length - r'
    {
      s[dst'] := s[r'];
      dst' := dst' + 1;
      r' := r' + 1;
    }
  }

  /** The text after the copy: the head, then the name. */
  lemma Assemble(s: seq<char>, head: seq<char>, p: string, r: int, k: int, d0: int)
    requires d0 == |head| && 0 <= r && r + k <= |p| == |s| && 0 <= k && d0 + k <= |s|
    requires forall i :: 0 <= i < d0 ==> s[i] == head[i]
    requires forall i :: d0 <= i < d0 + k ==> s[i] == p[i - d0 + r]
    requires forall i :: r + k <= i < |s| ==> s[i] == p[i]
    ensures s[..d0 + k] == head + p[r..r + k]
  {
    var name := p[r..r + k];
    forall i | 0 <= i < d0 + k
      ensures s[..d0 + k][i] == (head + name)[i]
    {
      if i >= d0 {
        assert name[i - d0] == p[i - d0 + r];
      }
    }
  }

  /** After a name is copied the text renders the stack with that name pushed. */
  lemma NameStep(s: seq<char>, s': seq<char>, p: string, rooted: bool, st: Stack, r: int, dst: int, dotdot: int, k: int, dst': int)
    requires Inv(s, p, rooted, st, r, dst, dotdot)
    requires r < |p| && p[r] != '/' && k == ElemLen(p[r..]) && 1 <= k && r + k <= |p| && Proper(p[r..r + k])
    requires r + k < |p| ==> p[r + k] == '/'
    requires |s'| == |s| && 0 <= dst' <= r + k && forall i :: r + k <= i < |p| ==> s'[i] == p[i]
    requires s'[..dst'] == s[..dst] + (if dst == (if rooted then 1 else 0) then "" else "/") + p[r..r + k]
    ensures Inv(s', p, rooted, Stack(st.ups, st.names + [p[r..r + k]]), r + k, dst', dotdot)
  {
    var e := p[r..r + k];
    var st' := Stack(st.ups, st.names + [e]);
    ReachableSnoc(rooted, st, e);
    RenderNameAt(s, s', rooted, st, e, dst, dst');
    SuffixOf(s', p, r + k);
    ReduceHead(p, rooted, st, r, Reduce(rooted, Stack(0, []), Elements(p)));
    assert Push(rooted, st, e) == st';
  }

  lemma ReachableSnoc(rooted: bool, st: Stack, e: string)
    requires Reachable(rooted, st) && Proper(e)
    ensures Reachable(rooted, Stack(st.ups, st.names + [e]))
  {
    var names := st.names + [e];
    forall i | 0 <= i < |names|
      ensures Proper(names[i])
    {
      if i < |st.names| {
        assert names[i] == st.names[i];
      }
    }
  }

  /** The text written for a name is the rendering of the stack with it. */
  lemma RenderNameAt(s: seq<char>, s': seq<char>, rooted: bool, st: Stack, e: string, dst: int, dst': int)
    requires Reachable(rooted, st) && Proper(e)
    requires 0 <= dst <= |s| && s[..dst] == Render(rooted, st)
    requires 0 <= dst' <= |s'| && s'[..dst'] == s[..dst] + (if dst == (if rooted then 1 else 0) then "" else "/") + e
    ensures s'[..dst'] == Render(rooted, Stack(st.ups, st.names + [e]))
  {
    RenderName(rooted, st, e);
    assert UpsLength(rooted, 0) == (if rooted then 1 else 0);
  }

  lemma SuffixAt(s: seq<char>, p: string, j: int)
    requires 0 <= j <= |p| == |s| && s[j..] == p[j..]
    ensures forall i :: j <= i < |p| ==> s[i] == p[i]
  {
    forall i | j <= i < |p|
      ensures s[i] == p[i]
    {
      assert s[i] == s[j..][i - j];
    }
  }

  lemma SuffixOf(s: seq<char>, p: string, j: int)
    requires 0 <= j <= |p| == |s| && forall i :: j <= i < |p| ==> s[i] == p[i]
    ensures s[j..] == p[j..]
  {
  }
}
