/** The ordering the atlas generator applies to images before packing
    (sort_images): landscape pairs by descending height, portrait pairs by
    descending width, any other pair by descending area. */
module AtlasSort {
  import opened StableSort

  datatype Image = Image(w: int, h: int, name: string)

  /** Python's cmp(a, b) == (a > b) - (a < b). */
  function Sign(a: int, b: int): (r: int)
    ensures r == -1 || r == 0 || r == 1
    ensures r < 0 <==> a < b
    ensures r > 0 <==> a > b
  {
    (if a > b then 1 else 0) - (if a < b then 1 else 0)
  }

  predicate Landscape(a: Image) { a.w > a.h }
  predicate Portrait(a: Image) { a.h > a.w }

  /** image_info_cmp */
  function Cmp(a: Image, b: Image): int
  {
    if Landscape(a) && Landscape(b) then -Sign(a.h, b.h)
    else if Portrait(a) && Portrait(b) then -Sign(a.w, b.w)
    else -Sign(a.w * a.h, b.w * b.h)
  }

  /** The "a < b" that list.sort sees through cmp_to_key. */
  predicate Less(a: Image, b: Image) { Cmp(a, b) < 0 }

  lemma {:induction false} CmpRule(a: Image, b: Image)
    ensures Landscape(a) && Landscape(b) ==> (Less(a, b) <==> a.h > b.h)
    ensures Portrait(a) && Portrait(b) ==> (Less(a, b) <==> a.w > b.w)
    ensures !(Landscape(a) && Landscape(b)) && !(Portrait(a) && Portrait(b)) ==>
      (Less(a, b) <==> a.w * a.h > b.w * b.h)
  {
  }

  lemma {:induction false} CmpAntisymmetric(a: Image, b: Image)
    ensures Cmp(a, b) == -Cmp(b, a)
  {
  }

  /** The comparator is not a consistent order: three images each sort
      before the next and the last before the first. */
  lemma {:induction false} CmpNotTransitive()
    ensures var a, b, c := Image(10, 1, "a"), Image(3, 2, "b"), Image(1, 8, "c");
      Less(b, a) && Less(c, b) && Less(a, c)
  {
  }

  lemma {:induction false} LessAsymmetric(s: seq<Image>)
    ensures Asymmetric(Less, s)
  {
  }

  lemma {:induction false} LandscapeConsistent(s: seq<Image>)
    requires forall i :: 0 <= i < |s| ==> Landscape(s[i])
    ensures Consistent(Less, s)
  {
  }

  lemma {:induction false} PortraitConsistent(s: seq<Image>)
    requires forall i :: 0 <= i < |s| ==> Portrait(s[i])
    ensures Consistent(Less, s)
  {
  }

  /** sort_images: images.sort(key=cmp_to_key(image_info_cmp)). */
  method SortImages(images: array<Image>)
    modifies images
    ensures images[..] == SortSpec(Less, old(images[..]))
    ensures multiset(images[..]) == multiset(old(images[..]))
    ensures AdjacentOrdered(Less, images[..])
  {
    LessAsymmetric(images[..]);
    SortSpecPermutes(Less, images[..]);
    SortSpecAdjacent(Less, images[..]);
    Sort(Less, images);
  }
}
