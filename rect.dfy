/** Math/Rect: an integer rectangle of w x h cells whose top-left cell is
    (x, y). Its fields are also readable by index, 0 to 3 in the order
    x, y, w, h, through the union with int data[4]. */
module Rects {
  import opened Global

  class Rect {
    var x: int
    var y: int
    var w: int
    var h: int

    constructor (x0: int, y0: int, w0: int, h0: int)
      ensures x == x0 && y == y0 && w == w0 && h == h0
    {
      x, y, w, h := x0, y0, w0, h0;
    }

    /** Rect(base, size) */
    constructor FromVecs(base: Vec2i, size: Vec2i)
      ensures x == base.x && y == base.y && w == size.x && h == size.y
    {
      x, y, w, h := base.x, base.y, size.x, size.y;
    }

    /** x2(): the last column, one before x + w. */
    function X2(): int
      reads this
    {
      x + w - 1
    }

    /** y2(): the last row. */
    function Y2(): int
      reads this
    {
      y + h - 1
    }

    /** set_x2(v): resize so that v is the last column; x, y and h stay. */
    method SetX2(v: int)
      modifies this
      ensures X2() == v
      ensures x == old(x) && y == old(y) && h == old(h)
    {
      w := v - x + 1;
    }

    /** set_y2(v): resize so that v is the last row; x, y and w stay. */
    method SetY2(v: int)
      modifies this
      ensures Y2() == v
      ensures x == old(x) && y == old(y) && w == old(w)
    {
      h := v - y + 1;
    }

    /** operator[](i), reading the union's data[i]. */
    function At(i: int): int
      requires 0 <= i < 4
      reads this
    {
      if i == 0 then x else if i == 1 then y else if i == 2 then w else h
    }
  }

  /** operator==: equal rectangles agree on every indexed component, and so
      have the same last column and row. */
  predicate Equal(l: Rect, r: Rect)
    reads l, r
    ensures Equal(l, r) <==> forall i :: 0 <= i < 4 ==> l.At(i) == r.At(i)
    ensures Equal(l, r) ==> l.X2() == r.X2() && l.Y2() == r.Y2()
  {
    assert l.At(0) == l.x && l.At(1) == l.y && l.At(2) == l.w && l.At(3) == l.h;
    assert r.At(0) == r.x && r.At(1) == r.y && r.At(2) == r.w && r.At(3) == r.h;
    l.x == r.x && l.y == r.y && l.w == r.w && l.h == r.h
  }

  /** operator!= is the negation of operator==. */
  predicate NotEqual(l: Rect, r: Rect)
    reads l, r
    ensures NotEqual(l, r) <==> !Equal(l, r)
  {
    l.x != r.x || l.y != r.y || l.w != r.w || l.h != r.h
  }

  /** is_point_inside: p is one of the w x h cells from (x, y); a rectangle
      with no width or no height holds no point. */
  predicate IsPointInside(p: Vec2i, r: Rect)
    reads r
    ensures IsPointInside(p, r) <==> r.x <= p.x < r.x + r.w && r.y <= p.y < r.y + r.h
    ensures r.w <= 0 || r.h <= 0 ==> !IsPointInside(p, r)
  {
    p.x <= r.X2() && p.x >= r.x && p.y <= r.Y2() && p.y >= r.y
  }
}
