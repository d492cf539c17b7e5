/** The font generator's shelf packer: glyphs are laid out left to right in
    rows, a row wrapping when the next glyph would pass the texture width. */
module FontGen {
  import opened Bits
  import opened TexSize
  import opened StableSort
  import opened Wrappers

  datatype Glyph = Glyph(symbol: char, width: int, height: int)

  /** The packing cursor: the next x, the row's y, and the row's height so far. */
  datatype Cursor = Cursor(x: int, y: int, lineHeight: int)

  function Max(a: int, b: int): int { if a < b then b else a }

  /** The cursor at which glyph g is placed: wrap to a new row when
      x + width > w, then raise the row height to the glyph's height. */
  function Place(c: Cursor, g: Glyph, w: int): Cursor
  {
    var c1 := if c.x + g.width > w then Cursor(0, c.y + c.lineHeight + 1, 0) else c;
    Cursor(c1.x, c1.y, Max(c1.lineHeight, g.height))
  }

  /** The cursor after placing g at p: x moves past the glyph and a 1-pixel gap. */
  function Advance(p: Cursor, g: Glyph): Cursor
  {
    Cursor(p.x + g.width + 1, p.y, p.lineHeight)
  }

  /** The cursor after laying out all the glyphs. */
  function Run(glyphs: seq<Glyph>, w: int): Cursor
  {
    if |glyphs| == 0 then Cursor(0, 0, 0)
    else
      var last := glyphs[|glyphs| - 1];
      Advance(Place(Run(glyphs[..|glyphs| - 1], w), last, w), last)
  }

  /** Where glyph k is placed. */
  function At(glyphs: seq<Glyph>, k: nat, w: int): Cursor
    requires k < |glyphs|
  {
    Place(Run(glyphs[..k], w), glyphs[k], w)
  }

  /** check_glyphs_fit as written: every row, once raised to a glyph's
      height, still ends within h. The glyph width is never compared with w. */
  predicate FitsAsWritten(glyphs: seq<Glyph>, w: int, h: int)
  {
    forall k :: 0 <= k < |glyphs| ==> At(glyphs, k, w).y + At(glyphs, k, w).lineHeight <= h
  }

  /** The intended fit test: additionally no glyph is wider than the texture. */
  predicate Fits(glyphs: seq<Glyph>, w: int, h: int)
  {
    FitsAsWritten(glyphs, w, h) && forall k :: 0 <= k < |glyphs| ==> glyphs[k].width <= w
  }

  predicate NonNegative(glyphs: seq<Glyph>)
  {
    forall k :: 0 <= k < |glyphs| ==> glyphs[k].width >= 0 && glyphs[k].height >= 0
  }

  lemma {:induction false} RunStep(glyphs: seq<Glyph>, k: nat, w: int)
    requires k < |glyphs|
    ensures Run(glyphs[..k + 1], w) == Advance(At(glyphs, k, w), glyphs[k])
  {
    assert glyphs[..k + 1][..k] == glyphs[..k];
  }

  /** The row rule: a glyph wraps exactly when x + width > w; a new row
      starts at x = 0 one pixel below the previous row's height; x advances
      by the width plus one. */
  lemma {:induction false} RowRule(glyphs: seq<Glyph>, k: nat, w: int)
    requires k < |glyphs|
    ensures var c, p := Run(glyphs[..k], w), At(glyphs, k, w);
      (c.x + glyphs[k].width > w ==> p.x == 0 && p.y == c.y + c.lineHeight + 1) &&
      (c.x + glyphs[k].width <= w ==> p.x == c.x && p.y == c.y) &&
      p.lineHeight >= glyphs[k].height &&
      Run(glyphs[..k + 1], w).x == p.x + glyphs[k].width + 1
  {
    RunStep(glyphs, k, w);
  }

  /** check_glyphs_fit */
  method CheckGlyphsFit(glyphs: seq<Glyph>, w: int, h: int) returns (fits: bool)
    ensures fits == FitsAsWritten(glyphs, w, h)
  {
    var lineHeight, x, y := 0, 0, 0;
    var k := 0;
    while k < |glyphs|
      invariant 0 <= k <= |glyphs|
      invariant Cursor(x, y, lineHeight) == Run(glyphs[..k], w)
      invariant forall j :: 0 <= j < k ==> At(glyphs, j, w).y + At(glyphs, j, w).lineHeight <= h
    {
      var g := glyphs[k];
      if x + g.width > w {
        x := 0;
        y := y + lineHeight + 1;
        lineHeight := 0;
      }
      lineHeight := Max(lineHeight, g.height);
      assert At(glyphs, k, w) == Cursor(x, y, lineHeight);
      if y + lineHeight > h {
        return false;
      }
      RunStep(glyphs, k, w);
      x := x + g.width + 1;
      k := k + 1;
    }
    return true;
  }

  /** The corrected check: a glyph wider than the texture does not fit. */
  method CheckGlyphsFitFixed(glyphs: seq<Glyph>, w: int, h: int) returns (fits: bool)
    ensures fits == Fits(glyphs, w, h)
  {
    var lineHeight, x, y := 0, 0, 0;
    var k := 0;
    while k < |glyphs|
      invariant 0 <= k <= |glyphs|
      invariant Cursor(x, y, lineHeight) == Run(glyphs[..k], w)
      invariant forall j :: 0 <= j < k ==> At(glyphs, j, w).y + At(glyphs, j, w).lineHeight <= h
      invariant forall j :: 0 <= j < k ==> glyphs[j].width <= w
    {
      var g := glyphs[k];
      if g.width > w {
        return false;
      }
      if x + g.width > w {
        x := 0;
        y := y + lineHeight + 1;
        lineHeight := 0;
      }
      lineHeight := Max(lineHeight, g.height);
      assert At(glyphs, k, w) == Cursor(x, y, lineHeight);
      if y + lineHeight > h {
        return false;
      }
      RunStep(glyphs, k, w);
      x := x + g.width + 1;
      k := k + 1;
    }
    return true;
  }

  /** One glyph, 4 wide and 1 high, passes the check as written for a 2 x 2
      texture, yet it is placed at x = 0 and runs 2 pixels past the width. */
  lemma {:induction false} WideGlyphPassesCheck()
    ensures var gs := [Glyph('W', 4, 1)];
      FitsAsWritten(gs, 2, 2) && At(gs, 0, 2).x + gs[0].width > 2 && !Fits(gs, 2, 2)
  {
    var gs := [Glyph('W', 4, 1)];
    assert gs[..0] == [];
    assert At(gs, 0, 2) == Cursor(0, 1, 1);
  }

  // ---------------------------------------------------------------------
  // Placement

  datatype DrawnGlyph = DrawnGlyph(glyph: Glyph, x: int, y: int)

  /** The placement loop of draw_glyphs: the same row rule as the check. */
  method PlaceGlyphs(glyphs: seq<Glyph>, w: int) returns (drawn: seq<DrawnGlyph>)
    ensures |drawn| == |glyphs|
    ensures forall k :: 0 <= k < |glyphs| ==>
      drawn[k] == DrawnGlyph(glyphs[k], At(glyphs, k, w).x, At(glyphs, k, w).y)
  {
    drawn := [];
    var lineHeight, x, y := 0, 0, 0;
    var k := 0;
    while k < |glyphs|
      invariant 0 <= k <= |glyphs| && |drawn| == k
      invariant Cursor(x, y, lineHeight) == Run(glyphs[..k], w)
      invariant forall j :: 0 <= j < k ==>
        drawn[j] == DrawnGlyph(glyphs[j], At(glyphs, j, w).x, At(glyphs, j, w).y)
    {
      var g := glyphs[k];
      if x + g.width > w {
        x := 0;
        y := y + lineHeight + 1;
        lineHeight := 0;
      }
      lineHeight := Max(lineHeight, g.height);
      drawn := drawn + [DrawnGlyph(g, x, y)];
      RunStep(glyphs, k, w);
      x := x + g.width + 1;
      k := k + 1;
    }
  }

  predicate Apart(a: DrawnGlyph, b: DrawnGlyph)
  {
    a.x + a.glyph.width <= b.x || b.x + b.glyph.width <= a.x ||
    a.y + a.glyph.height <= b.y || b.y + b.glyph.height <= a.y
  }

  /** Every glyph placed before the cursor c is either on c's row, left of
      c.x and no higher than the row, or entirely above the row. */
  predicate RowsSoFar(glyphs: seq<Glyph>, k: nat, w: int)
    requires k <= |glyphs|
  {
    var c := Run(glyphs[..k], w);
    0 <= c.x && 0 <= c.y && 0 <= c.lineHeight &&
    forall j :: 0 <= j < k ==>
      var p := At(glyphs, j, w);
      0 <= p.x && 0 <= p.y &&
      ((p.y == c.y && p.x + glyphs[j].width < c.x && glyphs[j].height <= c.lineHeight) ||
       p.y + glyphs[j].height < c.y)
  }

  lemma {:induction false} RowsInvariant(glyphs: seq<Glyph>, k: nat, w: int)
    requires k <= |glyphs| && NonNegative(glyphs)
    ensures RowsSoFar(glyphs, k, w)
  {
    if k == 0 {
      assert glyphs[..0] == [];
    } else {
      RowsInvariant(glyphs, k - 1, w);
      RowsStep(glyphs, k, w);
    }
  }

  /** Placing glyph k - 1 keeps every earlier glyph behind or above the cursor. */
  lemma RowsStep(glyphs: seq<Glyph>, k: nat, w: int)
    requires 0 < k <= |glyphs| && NonNegative(glyphs) && RowsSoFar(glyphs, k - 1, w)
    ensures RowsSoFar(glyphs, k, w)
  {
    var g := glyphs[k - 1];
    var c0, p, c := Run(glyphs[..k - 1], w), At(glyphs, k - 1, w), Run(glyphs[..k], w);
    assert c == Advance(p, g) by { RunStep(glyphs, k - 1, w); }
    assert g.width >= 0 && g.height >= 0;
    assert p.lineHeight >= g.height && p.lineHeight >= 0;
    assert c0.x + g.width > w ==> p.x == 0 && p.y == c0.y + c0.lineHeight + 1;
    assert c0.x + g.width <= w ==> p.x == c0.x && p.y == c0.y && p.lineHeight >= c0.lineHeight;
    forall j | 0 <= j < k
      ensures var q := At(glyphs, j, w);
        0 <= q.x && 0 <= q.y &&
        ((q.y == c.y && q.x + glyphs[j].width < c.x && glyphs[j].height <= c.lineHeight) ||
         q.y + glyphs[j].height < c.y)
    {
      if j < k - 1 {
        var q := At(glyphs, j, w);
        assert 0 <= q.x && 0 <= q.y &&
          ((q.y == c0.y && q.x + glyphs[j].width < c0.x && glyphs[j].height <= c0.lineHeight) ||
           q.y + glyphs[j].height < c0.y);
      }
    }
  }

  /** Glyph k is apart from every glyph placed before it. */
  lemma {:induction false} PlacedApart(glyphs: seq<Glyph>, i: nat, k: nat, w: int)
    requires i < k < |glyphs| && NonNegative(glyphs)
    ensures Apart(DrawnGlyph(glyphs[i], At(glyphs, i, w).x, At(glyphs, i, w).y),
                  DrawnGlyph(glyphs[k], At(glyphs, k, w).x, At(glyphs, k, w).y))
  {
    RowsInvariant(glyphs, k, w);
    RowRule(glyphs, k, w);
  }

  /** Under the corrected check, a size that fits gives placements inside
      the texture, no two of which overlap. */
  lemma {:induction false} PlacementsInBounds(glyphs: seq<Glyph>, w: int, h: int)
    requires NonNegative(glyphs) && Fits(glyphs, w, h)
    ensures forall k :: 0 <= k < |glyphs| ==>
      0 <= At(glyphs, k, w).x && At(glyphs, k, w).x + glyphs[k].width <= w &&
      0 <= At(glyphs, k, w).y && At(glyphs, k, w).y + glyphs[k].height <= h
    ensures forall i, k :: 0 <= i < k < |glyphs| ==>
      Apart(DrawnGlyph(glyphs[i], At(glyphs, i, w).x, At(glyphs, i, w).y),
            DrawnGlyph(glyphs[k], At(glyphs, k, w).x, At(glyphs, k, w).y))
  {
    forall k | 0 <= k < |glyphs|
      ensures 0 <= At(glyphs, k, w).x && At(glyphs, k, w).x + glyphs[k].width <= w
      ensures 0 <= At(glyphs, k, w).y && At(glyphs, k, w).y + glyphs[k].height <= h
    {
      RowsInvariant(glyphs, k, w);
      RowRule(glyphs, k, w);
    }
    forall i, k | 0 <= i < k < |glyphs|
      ensures Apart(DrawnGlyph(glyphs[i], At(glyphs, i, w).x, At(glyphs, i, w).y),
                    DrawnGlyph(glyphs[k], At(glyphs, k, w).x, At(glyphs, k, w).y))
    {
      PlacedApart(glyphs, i, k, w);
    }
  }

  // ---------------------------------------------------------------------
  // Sizing

  function SumArea(glyphs: seq<Glyph>): int
  {
    if |glyphs| == 0 then 0
    else SumArea(glyphs[..|glyphs| - 1]) + glyphs[|glyphs| - 1].width * glyphs[|glyphs| - 1].height
  }

  method TotalArea(glyphs: seq<Glyph>) returns (total: int)
    ensures total == SumArea(glyphs)
  {
    total := 0;
    var k := 0;
    while k < |glyphs|
      invariant 0 <= k <= |glyphs|
      invariant total == SumArea(glyphs[..k])
    {
      assert glyphs[..k + 1][..k] == glyphs[..k];
      total := total + glyphs[k].width * glyphs[k].height;
      k := k + 1;
    }
    assert glyphs[..|glyphs|] == glyphs;
  }

  function FirstGuess(glyphs: seq<Glyph>): int
  {
    NextPowerOf2(ISqrt(if SumArea(glyphs) < 0 then 0 else SumArea(glyphs)))
  }

  /** Some glyph covers at least one pixel. */
  predicate HasInk(glyphs: seq<Glyph>)
  {
    exists k :: 0 <= k < |glyphs| && glyphs[k].width >= 1 && glyphs[k].height >= 1
  }

  /** A texture that takes an inked glyph is at least one pixel each way. */
  lemma {:induction false} FitsPositiveSize(glyphs: seq<Glyph>, w: int, h: int)
    requires NonNegative(glyphs) && HasInk(glyphs) && Fits(glyphs, w, h)
    ensures 1 <= w && 1 <= h
  {
    var k :| 0 <= k < |glyphs| && glyphs[k].width >= 1 && glyphs[k].height >= 1;
    RowsInvariant(glyphs, k, w);
    RowRule(glyphs, k, w);
  }

  /** The fit test a sizing search applies: the program's check, or with
      fixed the corrected one. */
  predicate FitTest(fixed: bool, glyphs: seq<Glyph>, w: int, h: int)
  {
    if fixed then Fits(glyphs, w, h) else FitsAsWritten(glyphs, w, h)
  }

  method CheckFit(fixed: bool, glyphs: seq<Glyph>, w: int, h: int) returns (fits: bool)
    ensures fits == FitTest(fixed, glyphs, w, h)
  {
    if fixed {
      fits := CheckGlyphsFitFixed(glyphs, w, h);
    } else {
      fits := CheckGlyphsFit(glyphs, w, h);
    }
  }

  predicate GrowResult(fixed: bool, glyphs: seq<Glyph>, s: int, w: int, h: int)
  {
    (w, h) == (if FitTest(fixed, glyphs, 2 * s, s) then (2 * s, s) else (2 * s, 2 * s))
  }

  predicate ShrinkResult(fixed: bool, glyphs: seq<Glyph>, s: int, n: nat, w: int, h: int)
  {
    (w, h) == Halvings(s, s, n) &&
    (forall m: nat :: m <= n ==> FitTest(fixed, glyphs, Halvings(s, s, m).0, Halvings(s, s, m).1)) &&
    !FitTest(fixed, glyphs, Halvings(s, s, n + 1).0, Halvings(s, s, n + 1).1)
  }

  /** Every size of the shrink path from (s, s) passes the test, so the
      shrink loop never ends. */
  ghost predicate NeverShrinks(fixed: bool, glyphs: seq<Glyph>, s: int)
  {
    forall m: nat :: FitTest(fixed, glyphs, Halvings(s, s, m).0, Halvings(s, s, m).1)
  }

  /** The shrink loop, from a size s that passes the test. It returns None
      where the loop never ends: once a step reaches (0, 0) and that passes,
      every later step is (0, 0) again. */
  method Shrink(fixed: bool, glyphs: seq<Glyph>, s: nat) returns (r: Option<(int, int)>)
    requires FitTest(fixed, glyphs, s, s)
    ensures r.Some? ==> FitTest(fixed, glyphs, r.value.0, r.value.1)
    ensures r.Some? ==> exists n: nat :: ShrinkResult(fixed, glyphs, s, n, r.value.0, r.value.1)
    ensures r.None? <==> NeverShrinks(fixed, glyphs, s)
  {
    var w, h := s, s;
    var i := 0;
    while true
      invariant 0 <= w && 0 <= h
      invariant (w, h) == Halvings(s, s, i)
      invariant forall m: nat :: m <= i ==> FitTest(fixed, glyphs, Halvings(s, s, m).0, Halvings(s, s, m).1)
      decreases w + h, if (if i % 2 == 1 then w else h) == 0 then 1 else 0
    {
      var (neww, newh) := MakeNewWH(w, h, i);
      var fits := CheckFit(fixed, glyphs, neww, newh);
      if !fits {
        assert ShrinkResult(fixed, glyphs, s, i, w, h);
        return Some((w, h));
      }
      if neww == 0 && newh == 0 {
        forall m: nat ensures FitTest(fixed, glyphs, Halvings(s, s, m).0, Halvings(s, s, m).1) {
          if m > i + 1 {
            HalvingsStayZero(s, s, i + 1, m);
          }
        }
        return None;
      }
      w, h := neww, newh;
      i := i + 1;
    }
  }

  /** calculate_font_texture_dimensions, with the program's check_glyphs_fit.
      None stands for the two ways the source returns no size: math.sqrt
      raising on a negative total area, and a shrink loop that never ends. */
  method CalculateFontDims(glyphs: seq<Glyph>) returns (r: Option<(int, int)>)
    ensures SumArea(glyphs) < 0 ==> r.None?
    ensures SumArea(glyphs) >= 0 && !FitsAsWritten(glyphs, FirstGuess(glyphs), FirstGuess(glyphs)) ==>
      r.Some? && GrowResult(false, glyphs, FirstGuess(glyphs), r.value.0, r.value.1)
    ensures SumArea(glyphs) >= 0 && FitsAsWritten(glyphs, FirstGuess(glyphs), FirstGuess(glyphs)) ==>
      (r.Some? ==> exists n: nat :: ShrinkResult(false, glyphs, FirstGuess(glyphs), n, r.value.0, r.value.1)) &&
      (r.None? <==> NeverShrinks(false, glyphs, FirstGuess(glyphs)))
  {
    var total := TotalArea(glyphs);
    if total < 0 {
      return None;
    }
    var size := NextPowerOf2(ISqrt(total));
    var w, h := size, size;
    var exactFit := false;
    var fits := CheckGlyphsFit(glyphs, w, h);
    if !fits {
      exactFit := true;
      w := w * 2;
      fits := CheckGlyphsFit(glyphs, w, h);
      if !fits {
        h := h * 2;
      }
    }
    if !exactFit {
      r := Shrink(false, glyphs, size);
    } else {
      r := Some((w, h));
    }
  }

  /** The same search with the corrected check. Where it ends on the shrink
      path, the size takes every glyph: placed inside the texture, none
      overlapping another. */
  method CalculateFontDimsFixed(glyphs: seq<Glyph>) returns (r: Option<(int, int)>)
    ensures SumArea(glyphs) < 0 ==> r.None?
    ensures SumArea(glyphs) >= 0 && !FitTest(true, glyphs, FirstGuess(glyphs), FirstGuess(glyphs)) ==>
      r.Some? && GrowResult(true, glyphs, FirstGuess(glyphs), r.value.0, r.value.1)
    ensures SumArea(glyphs) >= 0 && FitTest(true, glyphs, FirstGuess(glyphs), FirstGuess(glyphs)) ==>
      (r.Some? ==>
        FitTest(true, glyphs, r.value.0, r.value.1) &&
        exists n: nat :: ShrinkResult(true, glyphs, FirstGuess(glyphs), n, r.value.0, r.value.1)) &&
      (r.None? <==> NeverShrinks(true, glyphs, FirstGuess(glyphs)))
  {
    var total := TotalArea(glyphs);
    if total < 0 {
      return None;
    }
    var size := NextPowerOf2(ISqrt(total));
    var w, h := size, size;
    var exactFit := false;
    var fits := CheckGlyphsFitFixed(glyphs, w, h);
    if !fits {
      exactFit := true;
      w := w * 2;
      fits := CheckGlyphsFitFixed(glyphs, w, h);
      if !fits {
        h := h * 2;
      }
    }
    if !exactFit {
      r := Shrink(true, glyphs, size);
    } else {
      r := Some((w, h));
    }
  }

  /** With non-negative glyph sizes and an inked glyph, the shrink loop ends
      from any starting size, under either check. */
  lemma {:induction false} InkedShrinkStops(glyphs: seq<Glyph>, s: nat)
    requires NonNegative(glyphs) && HasInk(glyphs)
    ensures !NeverShrinks(false, glyphs, s) && !NeverShrinks(true, glyphs, s)
  {
    HalvingsReachZero(s);
    var k :| 0 <= k < |glyphs| && glyphs[k].width >= 1 && glyphs[k].height >= 1;
    RowsInvariant(glyphs, k + 1, 0);
    RowRule(glyphs, k, 0);
    assert At(glyphs, k, 0).y + At(glyphs, k, 0).lineHeight > 0;
    assert !FitTest(false, glyphs, Halvings(s, s, 2 * s).0, Halvings(s, s, 2 * s).1);
  }

  /** With no glyphs the first guess is 0 and every size passes, so the
      shrink loop never ends. */
  lemma {:induction false} NoGlyphsNeverStop()
    ensures FirstGuess([]) == 0 && NeverShrinks(false, [], 0) && NeverShrinks(true, [], 0)
  {
  }

  /** One glyph 4 wide and 1 high: the program sizes its texture 2 x 2,
      which the check as written accepts although the glyph does not fit. */
  lemma {:induction false} WideGlyphSizedTooSmall()
    ensures var gs := [Glyph('W', 4, 1)];
      FirstGuess(gs) == 2 && FitsAsWritten(gs, 2, 2) &&
      ShrinkResult(false, gs, 2, 0, 2, 2) && !Fits(gs, 2, 2)
  {
    var gs := [Glyph('W', 4, 1)];
    WideGlyphFirstGuess();
    WideGlyphPassesCheck();
    assert Halvings(2, 2, 1) == (2, 1);
    WideGlyphFailsLower();
  }

  lemma {:induction false} WideGlyphFirstGuess()
    ensures FirstGuess([Glyph('W', 4, 1)]) == 2
  {
    WideGlyphArea();
    NextPowerOf2Of2();
  }

  lemma {:induction false} WideGlyphArea()
    ensures SumArea([Glyph('W', 4, 1)]) == 4 && ISqrt(4) == 2
  {
    var gs := [Glyph('W', 4, 1)];
    assert gs[..0] == [];
  }

  lemma {:induction false} NextPowerOf2Of2()
    ensures NextPowerOf2(2) == 2
  {
    SmearBelow(1, 1);
  }

  lemma {:induction false} WideGlyphFailsLower()
    ensures !FitsAsWritten([Glyph('W', 4, 1)], 2, 1)
  {
    var gs := [Glyph('W', 4, 1)];
    assert gs[..0] == [];
    assert At(gs, 0, 2) == Cursor(0, 1, 1);
  }

  // ---------------------------------------------------------------------
  // Orderings

  /** glyphs.sort(key=glyph_negative_height): a sorts before b when taller. */
  predicate Taller(a: Glyph, b: Glyph) { a.height > b.height }

  method SortGlyphs(glyphs: array<Glyph>)
    modifies glyphs
    ensures glyphs[..] == SortSpec(Taller, old(glyphs[..]))
  {
    Sort(Taller, glyphs);
  }

  /** The glyph order is by non-increasing height, a permutation, and stable:
      glyphs of equal height keep their order. */
  lemma {:induction false} GlyphOrder(s: seq<Glyph>, e: Glyph)
    ensures var r := SortSpec(Taller, s);
      multiset(r) == multiset(s) &&
      (forall i, j :: 0 <= i < j < |r| ==> r[i].height >= r[j].height) &&
      Class(Taller, r, e) == Class(Taller, s, e)
  {
    SortSpecPermutes(Taller, s);
    SortSpecSorted(Taller, s);
    SortSpecStable(Taller, s, e);
  }

  /** out_glyphs.sort(key=ord(symbol)): a sorts before b when its code point is lower. */
  predicate CodeBefore(a: DrawnGlyph, b: DrawnGlyph) { a.glyph.symbol < b.glyph.symbol }

  method SortByCode(out: array<DrawnGlyph>)
    modifies out
    ensures out[..] == SortSpec(CodeBefore, old(out[..]))
  {
    Sort(CodeBefore, out);
  }

  /** An entry of the output encoding table: code point and glyph index. */
  datatype Encoding = Encoding(unicode: int, index: int)

  /** The encoding table written after the glyph count: entry i is
      (ord(symbol of glyph i), i). */
  function EncodingTable(out: seq<DrawnGlyph>): (table: seq<Encoding>)
    ensures |table| == |out|
  {
    seq(|out|, i requires 0 <= i < |out| => Encoding(out[i].glyph.symbol as int, i))
  }

  /** The table written from the code-sorted glyphs is sorted by code point,
      entry i names glyph i, and that glyph carries the entry's code point. */
  lemma {:induction false} EncodingTableSorted(drawn: seq<DrawnGlyph>)
    ensures var out := SortSpec(CodeBefore, drawn);
      var table := EncodingTable(out);
      multiset(out) == multiset(drawn) &&
      (forall i, j :: 0 <= i < j < |table| ==> table[i].unicode <= table[j].unicode) &&
      (forall i :: 0 <= i < |table| ==>
        table[i].index == i && out[i].glyph.symbol as int == table[i].unicode)
  {
    SortSpecPermutes(CodeBefore, drawn);
    SortSpecSorted(CodeBefore, drawn);
  }
}
