/** The binary-tree rectangle packer of the atlas generator (ImagePack). */
module AtlasPack {
  import opened Wrappers

  datatype Rect = Rect(x: int, y: int, w: int, h: int)

  /** The packer tree as a value: a leaf, possibly filled by one image,
      or a node split into a left and a right child. */
  datatype Pack =
    | Leaf(rect: Rect, filled: bool)
    | Split(rect: Rect, left: Pack, right: Pack)

  predicate Inside(a: Rect, b: Rect)
  {
    b.x <= a.x && a.x + a.w <= b.x + b.w && b.y <= a.y && a.y + a.h <= b.y + b.h
  }

  predicate Disjoint(a: Rect, b: Rect)
  {
    a.x + a.w <= b.x || b.x + b.w <= a.x || a.y + a.h <= b.y || b.y + b.h <= a.y
  }

  predicate HasPoint(a: Rect, px: int, py: int)
  {
    a.x <= px < a.x + a.w && a.y <= py < a.y + a.h
  }

  function Height(t: Pack): nat
  {
    match t
    case Leaf(_, _) => 0
    case Split(_, l, r) => 1 + (if Height(l) < Height(r) then Height(r) else Height(l))
  }

  function Slack(t: Pack, w: int, h: int): nat
  {
    if t.Leaf? && w <= t.rect.w && h <= t.rect.h then (t.rect.w - w) + (t.rect.h - h) else 0
  }

  /** The two children a leaf splits into for a w x h request: the left one
      has exactly the requested width (or height), the right one takes the
      rest minus a one-pixel gutter. */
  function SplitRects(r: Rect, w: int, h: int): (Rect, Rect)
  {
    if r.w - w > r.h - h then
      (Rect(r.x, r.y, w, r.h), Rect(r.x + w, r.y, r.w - w - 1, r.h))
    else
      (Rect(r.x, r.y, r.w, h), Rect(r.x, r.y + h, r.w, r.h - h - 1))
  }

  /** ImagePack.insert on the tree value: the new tree, and the rect found. */
  function Insert(t: Pack, w: int, h: int): (Pack, Option<Rect>)
    decreases Height(t), Slack(t, w, h)
  {
    match t
    case Split(r, l, rt) =>
      var (l', res) := Insert(l, w, h);
      if res.Some? then (Split(r, l', rt), res)
      else
        var (rt', res') := Insert(rt, w, h);
        (Split(r, l', rt'), res')
    case Leaf(r, filled) =>
      if w > r.w || h > r.h || filled then (t, None)
      else if w == r.w && h == r.h then (Leaf(r, true), Some(r))
      else
        var (cl, cr) := SplitRects(r, w, h);
        var (cl', res) := Insert(Leaf(cl, false), w, h);
        (Split(r, cl', Leaf(cr, false)), res)
  }

  /** The rects of all filled leaves. */
  function Used(t: Pack): set<Rect>
  {
    match t
    case Leaf(r, filled) => if filled then {r} else {}
    case Split(_, l, rt) => Used(l) + Used(rt)
  }

  /** Every child lies inside its parent and the two children of a node are
      disjoint; sizes are non-negative. */
  predicate WF(t: Pack)
  {
    0 <= t.rect.w && 0 <= t.rect.h &&
    match t
    case Leaf(_, _) => true
    case Split(r, l, rt) =>
      Inside(l.rect, r) && Inside(rt.rect, r) && Disjoint(l.rect, rt.rect) && WF(l) && WF(rt)
  }

  // ---------------------------------------------------------------------
  // The node-local rules

  /** A leaf refuses a request wider or taller than itself, or when it is filled. */
  lemma {:induction false} LeafRefuses(r: Rect, filled: bool, w: int, h: int)
    requires w > r.w || h > r.h || filled
    ensures Insert(Leaf(r, filled), w, h) == (Leaf(r, filled), None)
  {
  }

  /** An exact-size request fills the leaf and returns its whole rect; every
      later request into that leaf fails. */
  lemma {:induction false} ExactFill(r: Rect, w: int, h: int, w': int, h': int)
    requires w == r.w && h == r.h
    ensures Insert(Leaf(r, false), w, h) == (Leaf(r, true), Some(r))
    ensures Insert(Leaf(r, true), w', h').1 == None
  {
  }

  /** A split node asks its left child first and its right child only when
      the left one fails. */
  lemma {:induction false} LeftFirst(r: Rect, l: Pack, rt: Pack, w: int, h: int)
    ensures Insert(l, w, h).1.Some? ==>
      Insert(Split(r, l, rt), w, h) == (Split(r, Insert(l, w, h).0, rt), Insert(l, w, h).1)
    ensures Insert(l, w, h).1.None? ==>
      Insert(Split(r, l, rt), w, h) == (Split(r, l, Insert(rt, w, h).0), Insert(rt, w, h).1)
  {
    InsertFailUnchanged(l, w, h);
  }

  /** The split leaves a one-pixel gutter: the two children and the gutter
      line exactly tile the leaf, and both children have non-negative size. */
  lemma {:induction false} SplitGutter(r: Rect, w: int, h: int)
    requires 0 <= w <= r.w && 0 <= h <= r.h && !(w == r.w && h == r.h)
    ensures var (cl, cr) := SplitRects(r, w, h);
      0 <= cl.w && 0 <= cl.h && 0 <= cr.w && 0 <= cr.h &&
      Inside(cl, r) && Inside(cr, r) && Disjoint(cl, cr) &&
      ((cl.w + cr.w + 1 == r.w && cl.h == r.h == cr.h && cr.x == cl.x + cl.w) ||
       (cl.h + cr.h + 1 == r.h && cl.w == r.w == cr.w && cr.y == cl.y + cl.h))
  {
  }

  // ---------------------------------------------------------------------
  // Whole-tree properties

  /** A failed insert changes nothing. */
  lemma {:induction false} InsertFailUnchanged(t: Pack, w: int, h: int)
    ensures Insert(t, w, h).1.None? ==> Insert(t, w, h).0 == t
    decreases Height(t), Slack(t, w, h)
  {
    match t
    case Split(r, l, rt) =>
      InsertFailUnchanged(l, w, h);
      InsertFailUnchanged(rt, w, h);
    case Leaf(r, filled) =>
      if !(w > r.w || h > r.h || filled) && !(w == r.w && h == r.h) {
        InsertFreshLeafSucceeds(r, w, h);
      }
  }

  /** A request that fits an empty leaf always succeeds. */
  lemma {:induction false} InsertFreshLeafSucceeds(r: Rect, w: int, h: int)
    requires w <= r.w && h <= r.h
    ensures Insert(Leaf(r, false), w, h).1.Some?
    decreases (r.w - w) + (r.h - h)
  {
    if !(w == r.w && h == r.h) {
      var (cl, cr) := SplitRects(r, w, h);
      InsertFreshLeafSucceeds(cl, w, h);
    }
  }

  lemma {:induction false} RectsApart(q: Rect, a: Rect, b: Rect, u: Rect)
    requires Inside(q, a) && Inside(u, b) && Disjoint(a, b)
    ensures Disjoint(q, u) && Disjoint(u, q)
  {
  }

  /** Every filled rect lies inside the tree's rect. */
  lemma {:induction false} UsedInside(t: Pack)
    requires WF(t)
    ensures forall u :: u in Used(t) ==> Inside(u, t.rect)
  {
    match t
    case Leaf(_, _) =>
    case Split(r, l, rt) =>
      UsedInside(l);
      UsedInside(rt);
  }

  /** A successful insert of a w x h request into a well-formed tree returns a
      w x h rect inside the tree's rect that overlaps no rect filled before;
      the new tree is well-formed, keeps its rect, and has exactly that one
      more filled rect. */
  lemma InsertPlaces(t: Pack, w: int, h: int)
    requires WF(t) && 1 <= w && 1 <= h
    ensures var (t', res) := Insert(t, w, h);
      WF(t') && t'.rect == t.rect &&
      (res.None? ==> t' == t) &&
      (res.Some? ==>
        res.value.w == w && res.value.h == h && Inside(res.value, t.rect) &&
        res.value !in Used(t) &&
        (forall u :: u in Used(t) ==> Disjoint(res.value, u)) &&
        Used(t') == Used(t) + {res.value})
  {
    InsertShape(t, w, h);
    InsertUsed(t, w, h);
    InsertApart(t, w, h);
  }

  /** The shape part of InsertPlaces: the new tree, and the size and place
      of the returned rect. */
  lemma {:induction false} InsertShape(t: Pack, w: int, h: int)
    requires WF(t) && 1 <= w && 1 <= h
    ensures var (t', res) := Insert(t, w, h);
      WF(t') && t'.rect == t.rect &&
      (res.None? ==> t' == t) &&
      (res.Some? ==> res.value.w == w && res.value.h == h && Inside(res.value, t.rect))
    decreases Height(t), Slack(t, w, h)
  {
    InsertFailUnchanged(t, w, h);
    match t
    case Split(r, l, rt) =>
      InsertShape(l, w, h);
      InsertShape(rt, w, h);
    case Leaf(r, filled) =>
      if !(w > r.w || h > r.h || filled) && !(w == r.w && h == r.h) {
        var (cl, cr) := SplitRects(r, w, h);
        SplitGutter(r, w, h);
        InsertShape(Leaf(cl, false), w, h);
      }
  }

  /** The filled part of InsertPlaces: a successful insert fills exactly
      the returned rect. */
  lemma {:induction false} InsertUsed(t: Pack, w: int, h: int)
    ensures var (t', res) := Insert(t, w, h);
      res.Some? ==> Used(t') == Used(t) + {res.value}
    decreases Height(t), Slack(t, w, h)
  {
    InsertFailUnchanged(t, w, h);
    match t
    case Split(r, l, rt) =>
      InsertUsed(l, w, h);
      InsertUsed(rt, w, h);
      InsertFailUnchanged(l, w, h);
    case Leaf(r, filled) =>
      if !(w > r.w || h > r.h || filled) && !(w == r.w && h == r.h) {
        var (cl, cr) := SplitRects(r, w, h);
        InsertUsed(Leaf(cl, false), w, h);
      }
  }

  /** The overlap part of InsertPlaces: the returned rect is new and meets
      no rect filled before. */
  lemma {:induction false} InsertApart(t: Pack, w: int, h: int)
    requires WF(t) && 1 <= w && 1 <= h
    ensures var (t', res) := Insert(t, w, h);
      res.Some? ==>
        res.value !in Used(t) && forall u :: u in Used(t) ==> Disjoint(res.value, u)
    decreases Height(t), Slack(t, w, h)
  {
    match t
    case Split(r, l, rt) =>
      InsertApart(l, w, h);
      InsertApart(rt, w, h);
      InsertShape(l, w, h);
      InsertShape(rt, w, h);
      UsedInside(l);
      UsedInside(rt);
      var (l', res) := Insert(l, w, h);
      if res.Some? {
        forall u | u in Used(rt) ensures Disjoint(res.value, u) {
          RectsApart(res.value, l.rect, rt.rect, u);
        }
      } else {
        var (rt', res') := Insert(rt, w, h);
        if res'.Some? {
          forall u | u in Used(l) ensures Disjoint(res'.value, u) {
            RectsApart(res'.value, rt.rect, l.rect, u);
          }
        }
      }
    case Leaf(r, filled) =>
  }
}

module AtlasPackObj {
  import opened Wrappers
  import opened AtlasPack

  /** ImagePack: a node of the packer tree whose insert mutates the node in
      place (filled, childl, childr). Tree is the value the node stands for. */
  class ImagePack {
    const rect: Rect
    var filled: bool
    var childl: ImagePack?
    var childr: ImagePack?
    ghost var Tree: Pack
    ghost var Repr: set<object>

    ghost predicate Valid()
      reads this, Repr
      decreases Repr
    {
      this in Repr &&
      (childr == null ==> childl == null && Tree == Leaf(rect, filled)) &&
      (childr != null ==>
        childl != null && childl in Repr && childr in Repr &&
        childl.Repr <= Repr && childr.Repr <= Repr &&
        this !in childl.Repr && this !in childr.Repr && childl.Repr !! childr.Repr &&
        childl.Valid() && childr.Valid() &&
        Tree == Split(rect, childl.Tree, childr.Tree))
    }

    constructor (r: Rect)
      ensures Valid() && fresh(Repr)
      ensures Tree == Leaf(r, false)
    {
      rect := r;
      filled := false;
      childl := null;
      childr := null;
      Tree := Leaf(r, false);
      Repr := {this};
    }

    method Insert(w: int, h: int) returns (ret: Option<Rect>)
      requires Valid()
      modifies Repr
      ensures Valid() && fresh(Repr - old(Repr))
      ensures (Tree, ret) == AtlasPack.Insert(old(Tree), w, h)
      decreases Height(Tree), Slack(Tree, w, h), 1
    {
      if childr != null {
        ret := InsertChildren(w, h);
      } else {
        ret := InsertLeaf(w, h);
      }
    }

    /** Insert into an inner node: try the left child, then the right one. */
    method InsertChildren(w: int, h: int) returns (ret: Option<Rect>)
      requires Valid() && childr != null
      modifies Repr
      ensures Valid() && fresh(Repr - old(Repr))
      ensures (Tree, ret) == AtlasPack.Insert(old(Tree), w, h)
      decreases Height(Tree), Slack(Tree, w, h), 0
    {
      ret := childl.Insert(w, h);
      if ret.Some? {
        Tree := Split(rect, childl.Tree, childr.Tree);
        Repr := Repr + childl.Repr;
        return;
      }
      ret := childr.Insert(w, h);
      Tree := Split(rect, childl.Tree, childr.Tree);
      Repr := Repr + childl.Repr + childr.Repr;
    }

    /** Insert into a leaf: reject, fill it exactly, or split it in two and
        insert into the fresh left child. */
    method InsertLeaf(w: int, h: int) returns (ret: Option<Rect>)
      requires Valid() && childr == null
      modifies Repr
      ensures Valid() && fresh(Repr - old(Repr))
      ensures (Tree, ret) == AtlasPack.Insert(old(Tree), w, h)
      decreases Height(Tree), Slack(Tree, w, h), 0
    {
      if w > rect.w || h > rect.h || filled {
        return None;
      }
      if w == rect.w && h == rect.h {
        filled := true;
        Tree := Leaf(rect, true);
        return Some(rect);
      }
      var (cl, cr) := SplitRects(rect, w, h);
      childl := new ImagePack(cl);
      childr := new ImagePack(cr);
      ret := childl.Insert(w, h);
      Tree := Split(rect, childl.Tree, childr.Tree);
      Repr := Repr + childl.Repr + childr.Repr;
    }
  }
}
