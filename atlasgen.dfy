/** The atlas generator's fit test, texture sizing search and name prefix. */
module AtlasGen {
  import opened Wrappers
  import opened Bits
  import opened TexSize
  import opened AtlasPack
  import opened AtlasPackObj
  import opened AtlasSort

  /** Packs the images one after another into t; stops at the first one
      that does not fit. Returns the final tree and the placements. */
  function PackAll(t: Pack, items: seq<Image>): (Pack, Option<seq<Rect>>)
    decreases |items|
  {
    if |items| == 0 then (t, Some([]))
    else
      var (t1, r) := Insert(t, items[0].w, items[0].h);
      if r.None? then (t1, None)
      else
        var (t2, rs) := PackAll(t1, items[1..]);
        (t2, if rs.None? then None else Some([r.value] + rs.value))
  }

  predicate Fits(items: seq<Image>, w: int, h: int)
  {
    PackAll(Leaf(Rect(0, 0, w, h), false), items).1.Some?
  }

  predicate Positive(items: seq<Image>)
  {
    forall i :: 0 <= i < |items| ==> items[i].w >= 1 && items[i].h >= 1
  }

  /** Each rect of rs has the size of its image, lies inside outer and
      shares no area with anything in used. */
  predicate Placed(rs: seq<Rect>, items: seq<Image>, outer: Rect, used: set<Rect>)
  {
    |rs| == |items| &&
    forall i :: 0 <= i < |rs| ==>
      rs[i].w == items[i].w && rs[i].h == items[i].h && Inside(rs[i], outer) &&
      forall u :: u in used ==> Disjoint(rs[i], u)
  }

  predicate PairwiseDisjoint(rs: seq<Rect>)
  {
    forall i, j :: 0 <= i < j < |rs| ==> Disjoint(rs[i], rs[j])
  }

  lemma {:induction false} ConsPlaced(r: Rect, rs: seq<Rect>, items: seq<Image>, outer: Rect, used: set<Rect>)
    requires |items| > 0 && r.w == items[0].w && r.h == items[0].h && Inside(r, outer)
    requires forall u :: u in used ==> Disjoint(r, u)
    requires Placed(rs, items[1..], outer, used + {r}) && PairwiseDisjoint(rs)
    ensures Placed([r] + rs, items, outer, used) && PairwiseDisjoint([r] + rs)
  {
    var all := [r] + rs;
    forall i | 0 < i < |all|
      ensures all[i].w == items[i].w && all[i].h == items[i].h && Inside(all[i], outer)
      ensures forall u :: u in used ==> Disjoint(all[i], u)
      ensures Disjoint(all[0], all[i])
    {
      assert all[i] == rs[i - 1] && items[i] == items[1..][i - 1];
      assert r in used + {r};
    }
    forall i, j | 0 < i < j < |all| ensures Disjoint(all[i], all[j]) {
      assert all[i] == rs[i - 1] && all[j] == rs[j - 1];
    }
  }

  /** When every image fits, image i is placed at a rect of its own size
      inside the tree's rect, away from everything filled before, and no two
      placements overlap. */
  lemma {:induction false} PackAllPlaces(t: Pack, items: seq<Image>)
    requires WF(t) && Positive(items)
    decreases |items|
    ensures var rs := PackAll(t, items).1;
      rs.Some? ==> Placed(rs.value, items, t.rect, Used(t)) && PairwiseDisjoint(rs.value)
  {
    if |items| > 0 {
      var (t1, r) := Insert(t, items[0].w, items[0].h);
      InsertPlaces(t, items[0].w, items[0].h);
      if r.Some? {
        assert Positive(items[1..]) by {
          forall i | 0 <= i < |items[1..]| ensures items[1..][i].w >= 1 && items[1..][i].h >= 1 {
            assert items[1..][i] == items[i + 1];
          }
        }
        PackAllPlaces(t1, items[1..]);
        var rs := PackAll(t1, items[1..]).1;
        if rs.Some? {
          ConsPlaced(r.value, rs.value, items, t.rect, Used(t));
        }
      }
    }
  }

  /** check_images_fit: a fresh packer of w x h takes every image in turn. */
  method CheckImagesFit(images: seq<Image>, w: int, h: int) returns (fits: bool)
    ensures fits == Fits(images, w, h)
  {
    var pack := new ImagePack(Rect(0, 0, w, h));
    var k := 0;
    while k < |images|
      invariant 0 <= k <= |images|
      invariant pack.Valid() && fresh(pack.Repr)
      invariant Fits(images, w, h) == PackAll(pack.Tree, images[k..]).1.Some?
      decreases |images| - k
    {
      var r := pack.Insert(images[k].w, images[k].h);
      assert images[k..][1..] == images[k + 1..];
      if r.None? {
        return false;
      }
      k := k + 1;
    }
    return true;
  }

  /** No image fits a texture narrower or lower than one pixel. */
  lemma {:induction false} FitsPositiveSize(items: seq<Image>, w: int, h: int)
    requires |items| >= 1 && Positive(items) && 0 <= w && 0 <= h
    requires Fits(items, w, h)
    ensures 1 <= w && 1 <= h
  {
    InsertPlaces(Leaf(Rect(0, 0, w, h), false), items[0].w, items[0].h);
  }

  // ---------------------------------------------------------------------
  // Sizing

  function SumArea(items: seq<Image>): int
  {
    if |items| == 0 then 0
    else SumArea(items[..|items| - 1]) + items[|items| - 1].w * items[|items| - 1].h
  }

  /** The first guess: the power of two at or above the square root of the
      total image area. */
  function FirstGuess(items: seq<Image>): int
  {
    NextPowerOf2(ISqrt(if SumArea(items) < 0 then 0 else SumArea(items)))
  }

  /** The grow path: the first guess s does not fit; the width doubles, and
      the height doubles too when that still does not fit. */
  predicate GrowResult(items: seq<Image>, s: int, w: int, h: int)
  {
    (w, h) == (if Fits(items, 2 * s, s) then (2 * s, s) else (2 * s, 2 * s))
  }

  /** The shrink path: (w, h) is the size after n shrink steps from (s, s),
      every size up to it fits, and the next step does not. */
  predicate ShrinkResult(items: seq<Image>, s: int, n: nat, w: int, h: int)
  {
    (w, h) == Halvings(s, s, n) &&
    (forall m: nat :: m <= n ==> Fits(items, Halvings(s, s, m).0, Halvings(s, s, m).1)) &&
    !Fits(items, Halvings(s, s, n + 1).0, Halvings(s, s, n + 1).1)
  }

  /** Every size of the shrink path from (s, s) fits, so the shrink loop
      never ends. */
  ghost predicate NeverShrinks(items: seq<Image>, s: int)
  {
    forall m: nat :: Fits(items, Halvings(s, s, m).0, Halvings(s, s, m).1)
  }

  /** The total area loop. */
  method TotalArea(images: seq<Image>) returns (total: int)
    ensures total == SumArea(images)
  {
    total := 0;
    var k := 0;
    while k < |images|
      invariant 0 <= k <= |images|
      invariant total == SumArea(images[..k])
    {
      assert images[..k + 1][..k] == images[..k];
      total := total + images[k].w * images[k].h;
      k := k + 1;
    }
    assert images[..|images|] == images;
  }

  /** The shrink loop, from a size s that fits. It returns None where the
      loop never ends: once a step reaches (0, 0) and that fits, every later
      step is (0, 0) again. */
  method Shrink(images: seq<Image>, s: nat) returns (r: Option<(int, int)>)
    requires Fits(images, s, s)
    ensures r.Some? ==> exists n: nat :: ShrinkResult(images, s, n, r.value.0, r.value.1)
    ensures r.None? <==> NeverShrinks(images, s)
  {
    var w, h := s, s;
    var i := 0;
    while true
      invariant 0 <= w && 0 <= h
      invariant (w, h) == Halvings(s, s, i)
      invariant forall m: nat :: m <= i ==> Fits(images, Halvings(s, s, m).0, Halvings(s, s, m).1)
      decreases w + h, if (if i % 2 == 1 then w else h) == 0 then 1 else 0
    {
      var (neww, newh) := MakeNewWH(w, h, i);
      var fits := CheckImagesFit(images, neww, newh);
      if !fits {
        assert ShrinkResult(images, s, i, w, h);
        return Some((w, h));
      }
      if neww == 0 && newh == 0 {
        forall m: nat ensures Fits(images, Halvings(s, s, m).0, Halvings(s, s, m).1) {
          if m > i + 1 {
            HalvingsStayZero(s, s, i + 1, m);
          }
        }
        return None;
      }
      w, h := neww, newh;
      i := i + 1;
    }
  }

  /** calculate_atlas_texture_dimensions. None stands for the two ways the
      source returns no size: math.sqrt raising on a negative total area,
      and a shrink loop that never ends. */
  method CalculateAtlasDims(images: seq<Image>) returns (r: Option<(int, int)>)
    ensures SumArea(images) < 0 ==> r.None?
    ensures SumArea(images) >= 0 && !Fits(images, FirstGuess(images), FirstGuess(images)) ==>
      r.Some? && GrowResult(images, FirstGuess(images), r.value.0, r.value.1)
    ensures SumArea(images) >= 0 && Fits(images, FirstGuess(images), FirstGuess(images)) ==>
      (r.Some? ==> exists n: nat :: ShrinkResult(images, FirstGuess(images), n, r.value.0, r.value.1)) &&
      (r.None? <==> NeverShrinks(images, FirstGuess(images)))
  {
    var total := TotalArea(images);
    if total < 0 {
      return None;
    }
    var size := NextPowerOf2(ISqrt(total));
    var w, h := size, size;
    var exactFit := false;
    var fits := CheckImagesFit(images, w, h);
    if !fits {
      exactFit := true;
      w := w * 2;
      fits := CheckImagesFit(images, w, h);
      if !fits {
        h := h * 2;
      }
    }
    if !exactFit {
      r := Shrink(images, size);
    } else {
      r := Some((w, h));
    }
  }

  /** With at least one image, every one at least 1 x 1, the shrink loop
      ends from any starting size. */
  lemma {:induction false} PositiveImagesStop(images: seq<Image>, s: nat)
    requires |images| >= 1 && Positive(images)
    ensures !NeverShrinks(images, s)
  {
    HalvingsReachZero(s);
    if Fits(images, 0, 0) {
      FitsPositiveSize(images, 0, 0);
    }
  }

  /** With no images the first guess is 0 and every size fits, so the
      shrink loop never ends. */
  lemma {:induction false} NoImagesNeverStop()
    ensures FirstGuess([]) == 0 && NeverShrinks([], 0)
  {
  }

  // ---------------------------------------------------------------------
  // common_prefix

  predicate IsPrefix(q: string, s: string) { q <= s }

  /** Shortens p from the end until it is a prefix of b: the longest prefix
      of p that is also a prefix of b. */
  function TrimTo(p: string, b: string): (r: string)
    ensures IsPrefix(r, p) && IsPrefix(r, b)
    ensures forall q: string :: IsPrefix(q, p) && IsPrefix(q, b) ==> IsPrefix(q, r)
  {
    if p <= b then p else TrimTo(p[..|p| - 1], b)
  }

  /** The prefix left after trimming the first name against every other. */
  function Lcp(names: seq<string>): string
    requires |names| >= 1
  {
    if |names| == 1 then names[0] else TrimTo(Lcp(names[..|names| - 1]), names[|names| - 1])
  }

  /** Lcp is the longest common prefix of the names. */
  lemma {:induction false} LcpLongest(names: seq<string>)
    requires |names| >= 1
    ensures forall k :: 0 <= k < |names| ==> IsPrefix(Lcp(names), names[k])
    ensures forall q: string ::
      (forall k :: 0 <= k < |names| ==> IsPrefix(q, names[k])) ==> IsPrefix(q, Lcp(names))
  {
    if |names| > 1 {
      var init := names[..|names| - 1];
      LcpLongest(init);
      forall k | 0 <= k < |names| - 1 ensures IsPrefix(Lcp(names), names[k]) {
        assert init[k] == names[k];
      }
      forall q: string | (forall k :: 0 <= k < |names| ==> IsPrefix(q, names[k]))
        ensures IsPrefix(q, Lcp(names))
      {
        assert forall k :: 0 <= k < |init| ==> IsPrefix(q, init[k]);
      }
    }
  }

  /** The last index of c in s, or -1 (str.rfind). */
  function RFind(s: string, c: char): (i: int)
    ensures -1 <= i < |s|
    ensures 0 <= i ==> s[i] == c
    ensures forall k :: i < k < |s| ==> s[k] != c
  {
    if |s| == 0 then -1
    else if s[|s| - 1] == c then |s| - 1
    else RFind(s[..|s| - 1], c)
  }

  const SEP: char := '/'

  /** common_prefix: the length of the names' longest common prefix, cut
      back to just after its last path separator. */
  method CommonPrefix(images: seq<Image>) returns (len: nat)
    requires |images| >= 1
    ensures var names := seq(|images|, k requires 0 <= k < |images| => images[k].name);
      var p := Lcp(names);
      len == (if RFind(p, SEP) == -1 then |p| else RFind(p, SEP) + 1)
  {
    ghost var names := seq(|images|, k requires 0 <= k < |images| => images[k].name);
    var prefix := images[0].name;
    var k := 1;
    while k < |images|
      invariant 1 <= k <= |images|
      invariant prefix == Lcp(names[..k])
    {
      ghost var before := prefix;
      while !IsPrefix(prefix, images[k].name)
        invariant TrimTo(prefix, images[k].name) == TrimTo(before, images[k].name)
        decreases |prefix|
      {
        assert prefix != [];
        prefix := prefix[..|prefix| - 1];
      }
      assert names[..k + 1][..k] == names[..k];
      k := k + 1;
    }
    assert names[..|images|] == names;
    var i := RFind(prefix, SEP);
    if i != -1 {
      prefix := prefix[..i + 1];
    }
    return |prefix|;
  }
}
