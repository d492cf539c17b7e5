/** What the passes of Geometry/HermiteField promise, stated on the value a
    cell ends with: union never clears ground and copies the brush's
    material, difference leaves air under the brush, paint only recolours
    ground, an all-air brush changes nothing, reduce_field keeps the
    material of cell 2p and places each crossing in the half of the coarse
    edge it came from, and the cube's crossings sit where its surface is. */
module HermiteFacts {
  import opened Global
  import opened HermiteCells
  import opened HermiteFields

  /** The final value of the lower neighbour along axis i, as Closed reads it. */
  function Nb(cell: CellFn, D: seq<Hermite>, fs: Vec3i, box: Vec3i, o: Vec3i, p: Vec3i, i: int): Hermite
    requires Placed(fs, box, o) && |D| == Volume(fs) && InBox(p, box) && 0 <= i < 3
  {
    if Axis(p, i) > 0 then Closed(cell, D, fs, box, o, Down(p, i)) else AIR
  }

  /** Closed, one level down. */
  lemma Unfold(cell: CellFn, D: seq<Hermite>, fs: Vec3i, box: Vec3i, o: Vec3i, p: Vec3i)
    requires Placed(fs, box, o) && |D| == Volume(fs) && InBox(p, box)
    ensures Closed(cell, D, fs, box, o, p) ==
      cell(p, At(D, fs, Add(o, p)), Nb(cell, D, fs, box, o, p, 0), Nb(cell, D, fs, box, o, p, 1),
        Nb(cell, D, fs, box, o, p, 2))
  {
  }

  // -----------------------------------------------------------------------
  // apply_union

  /** One union step: the material, and edge i. */
  lemma UnionStep(s: seq<Hermite>, ss: Vec3i, p: Vec3i, d: Hermite, n0: Hermite, n1: Hermite,
                  n2: Hermite, i: int)
    requires NonNeg(ss) && |s| == Volume(ss) && InBox(p, ss) && 0 <= i < 3
    ensures var c := Cell(Union, s, ss, ss)(p, d, n0, n1, n2);
      var sh := At(s, ss, p);
      var n := if i == 0 then n0 else if i == 1 then n1 else n2;
      c.material == (if sh.material != 0 then sh.material else d.material) &&
      c.Edge(i) == UnionEdge(s, ss, p, i, d.(material := c.material), n)
  {
    assert Cell(Union, s, ss, ss)(p, d, n0, n1, n2) == CellOp(Union, s, ss, ss, p, d, n0, n1, n2);
  }

  /** Union copies a solid brush material and otherwise keeps the field's
      material, so it never turns ground into air. */
  lemma UnionMaterial(D: seq<Hermite>, fs: Vec3i, s: seq<Hermite>, ss: Vec3i, o: Vec3i, p: Vec3i)
    requires Ready(Union, fs, s, ss, ss, o) && |D| == Volume(fs) && InBox(p, ss)
    ensures var c := UnionAt(D, fs, s, ss, o, p);
      var sh, dh := At(s, ss, p), At(D, fs, Add(o, p));
      (sh.material != 0 ==> c.material == sh.material) &&
      (sh.material == 0 ==> c.material == dh.material) &&
      (dh.material != 0 ==> c.material != 0)
  {
    var cell := Cell(Union, s, ss, ss);
    Unfold(cell, D, fs, ss, o, p);
    UnionStep(s, ss, p, At(D, fs, Add(o, p)), Nb(cell, D, fs, ss, o, p, 0),
      Nb(cell, D, fs, ss, o, p, 1), Nb(cell, D, fs, ss, o, p, 2), 0);
  }

  /** Union on edge i: an edge the brush's surface does not cross (or one
      on the brush's lower face) keeps the field's crossing; one it crosses
      takes the brush's crossing when the merged surface crosses it too,
      and is cleared when it does not. */
  lemma UnionEdges(D: seq<Hermite>, fs: Vec3i, s: seq<Hermite>, ss: Vec3i, o: Vec3i, p: Vec3i, i: int)
    requires Ready(Union, fs, s, ss, ss, o) && |D| == Volume(fs) && InBox(p, ss) && 0 <= i < 3
    ensures var c := UnionAt(D, fs, s, ss, o, p);
      var sh, dh := At(s, ss, p), At(D, fs, Add(o, p));
      (Axis(p, i) == 0 || !Crosses(sh, At(s, ss, Down(p, i))) ==> c.Edge(i) == dh.Edge(i)) &&
      (Axis(p, i) > 0 && Crosses(sh, At(s, ss, Down(p, i))) ==>
        c.Edge(i) == if Crosses(c, UnionAt(D, fs, s, ss, o, Down(p, i))) then sh.Edge(i) else 0)
  {
    var cell := Cell(Union, s, ss, ss);
    Unfold(cell, D, fs, ss, o, p);
    UnionStep(s, ss, p, At(D, fs, Add(o, p)), Nb(cell, D, fs, ss, o, p, 0),
      Nb(cell, D, fs, ss, o, p, 1), Nb(cell, D, fs, ss, o, p, 2), i);
  }

  // -----------------------------------------------------------------------
  // apply_paint

  lemma PaintStep(s: seq<Hermite>, ss: Vec3i, p: Vec3i, d: Hermite, n0: Hermite, n1: Hermite, n2: Hermite)
    requires NonNeg(ss) && |s| == Volume(ss) && InBox(p, ss)
    ensures var sh := At(s, ss, p);
      Cell(Paint, s, ss, ss)(p, d, n0, n1, n2) ==
        d.(material := if sh.material != 0 && d.material != 0 then sh.material else d.material)
  {
    assert Cell(Paint, s, ss, ss)(p, d, n0, n1, n2) == CellOp(Paint, s, ss, ss, p, d, n0, n1, n2);
  }

  /** Paint changes only the material, and only where both the brush and
      the field are solid, to the brush's material. */
  lemma PaintOnlyRecolours(D: seq<Hermite>, fs: Vec3i, s: seq<Hermite>, ss: Vec3i, o: Vec3i, p: Vec3i)
    requires Ready(Paint, fs, s, ss, ss, o) && |D| == Volume(fs) && InBox(p, ss)
    ensures var c := PaintAt(D, fs, s, ss, o, p);
      var sh, dh := At(s, ss, p), At(D, fs, Add(o, p));
      c.xEdge == dh.xEdge && c.yEdge == dh.yEdge && c.zEdge == dh.zEdge &&
      c.material == (if sh.material != 0 && dh.material != 0 then sh.material else dh.material)
  {
    var cell := Cell(Paint, s, ss, ss);
    Unfold(cell, D, fs, ss, o, p);
    PaintStep(s, ss, p, At(D, fs, Add(o, p)), Nb(cell, D, fs, ss, o, p, 0),
      Nb(cell, D, fs, ss, o, p, 1), Nb(cell, D, fs, ss, o, p, 2));
  }

  // -----------------------------------------------------------------------
  // apply_difference

  lemma DiffEdgesStep(s: seq<Hermite>, ss: Vec3i, p: Vec3i, d: Hermite, n0: Hermite, n1: Hermite,
                      n2: Hermite, i: int)
    requires NonNeg(ss) && |s| == Volume(ss) && InBox(p, ss) && 0 <= i < 3
    ensures var c := Cell(DiffEdges, s, ss, ss)(p, d, n0, n1, n2);
      var n := if i == 0 then n0 else if i == 1 then n1 else n2;
      c.material == d.material && c.Edge(i) == DiffEdge(s, ss, p, i, d, n)
  {
    assert Cell(DiffEdges, s, ss, ss)(p, d, n0, n1, n2) == CellOp(DiffEdges, s, ss, ss, p, d, n0, n1, n2);
  }

  /** After difference a cell under solid brush is air, every other cell
      keeps its material, and an edge the brush's surface does not cross
      keeps its crossing. */
  lemma DifferenceCarves(D: seq<Hermite>, fs: Vec3i, s: seq<Hermite>, ss: Vec3i, o: Vec3i, p: Vec3i, i: int)
    requires Ready(DiffEdges, fs, s, ss, ss, o) && |D| == Volume(fs) && InBox(p, ss) && 0 <= i < 3
    ensures var c := DifferenceAt(D, fs, s, ss, o, p);
      var sh, dh := At(s, ss, p), At(D, fs, Add(o, p));
      c.material == (if sh.material != 0 then 0 else dh.material) &&
      (Axis(p, i) == 0 || !Crosses(sh, At(s, ss, Down(p, i))) ==> c.Edge(i) == dh.Edge(i))
  {
    var cell := Cell(DiffEdges, s, ss, ss);
    Unfold(cell, D, fs, ss, o, p);
    DiffEdgesStep(s, ss, p, At(D, fs, Add(o, p)), Nb(cell, D, fs, ss, o, p, 0),
      Nb(cell, D, fs, ss, o, p, 1), Nb(cell, D, fs, ss, o, p, 2), i);
  }

  // -----------------------------------------------------------------------
  // A brush of air

  predicate AllAir(s: seq<Hermite>)
  {
    forall j :: 0 <= j < |s| ==> s[j].material == 0
  }

  /** Union, difference and paint with a brush that is air everywhere leave
      the field as it was. */
  lemma AirBrushChangesNothing(D: seq<Hermite>, fs: Vec3i, s: seq<Hermite>, ss: Vec3i, o: Vec3i, p: Vec3i)
    requires Ready(Union, fs, s, ss, ss, o) && |D| == Volume(fs) && InBox(p, ss) && AllAir(s)
    ensures var dh := At(D, fs, Add(o, p));
      UnionAt(D, fs, s, ss, o, p) == dh && PaintAt(D, fs, s, ss, o, p) == dh &&
      DifferenceAt(D, fs, s, ss, o, p) == dh
  {
    var dh := At(D, fs, Add(o, p));
    var sh := At(s, ss, p);
    assert sh.material == 0;
    UnionMaterial(D, fs, s, ss, o, p);
    PaintOnlyRecolours(D, fs, s, ss, o, p);
    for i := 0 to 3
      invariant forall j :: 0 <= j < i ==>
        UnionAt(D, fs, s, ss, o, p).Edge(j) == dh.Edge(j) &&
        DifferenceAt(D, fs, s, ss, o, p).Edge(j) == dh.Edge(j)
    {
      if Axis(p, i) > 0 {
        assert At(s, ss, Down(p, i)).material == 0;
      }
      UnionEdges(D, fs, s, ss, o, p, i);
      DifferenceCarves(D, fs, s, ss, o, p, i);
    }
    var u, d := UnionAt(D, fs, s, ss, o, p), DifferenceAt(D, fs, s, ss, o, p);
    assert u.Edge(0) == dh.Edge(0) && u.Edge(1) == dh.Edge(1) && u.Edge(2) == dh.Edge(2);
    assert d.Edge(0) == dh.Edge(0) && d.Edge(1) == dh.Edge(1) && d.Edge(2) == dh.Edge(2);
  }

  // -----------------------------------------------------------------------
  // reduce_field

  lemma ReduceStep(fold: seq<Hermite>, fsz: Vec3i, box: Vec3i, p: Vec3i, d: Hermite, n0: Hermite,
                   n1: Hermite, n2: Hermite, i: int)
    requires NonNeg(fsz) && |fold| == Volume(fsz) && SrcFits(Reduce, fsz, box) && InBox(p, box)
    requires 0 <= i < 3
    ensures InBox(Double(p), fsz)
    ensures var c := Cell(Reduce, fold, fsz, box)(p, d, n0, n1, n2);
      c.material == At(fold, fsz, Double(p)).material && c.Edge(i) == ReduceEdge(fold, fsz, p, i)
  {
  }

  /** The flat offsets reduce_field reads are the cells 2p - e_i and
      2p - 2e_i of the fine field. */
  lemma ReduceReads(fold: seq<Hermite>, fsz: Vec3i, p: Vec3i, i: int)
    requires |fold| == Volume(fsz) && InBox(Double(p), fsz) && 0 <= i < 3 && Axis(p, i) > 0
    ensures var q := Double(p);
      var hd0, hd1, hd2 := At(fold, fsz, q), At(fold, fsz, Down(q, i)), At(fold, fsz, Down(Down(q, i), i));
      ReduceEdge(fold, fsz, p, i) ==
        if !Crosses(hd0, hd2) then 0
        else if Crosses(hd0, hd1) then hd0.Edge(i) / 2
        else hd1.Edge(i) / 2 + HALF_EDGE
  {
    var q := Double(p);
    DownOffset(q, fsz, i);
    DownOffset(Down(q, i), fsz, i);
  }

  /** reduce_field takes the material of fine cell 2p; an edge on the
      lower face, or one whose two fine edges the surface does not cross
      overall, gets no crossing; a crossing on the nearer fine edge lands
      in the lower half of the coarse edge, one on the farther fine edge in
      the upper half. The old contents of the coarse field do not matter. */
  lemma ReduceHalves(D: seq<Hermite>, box: Vec3i, fold: seq<Hermite>, fsz: Vec3i, p: Vec3i, i: int)
    requires Ready(Reduce, box, fold, fsz, box, Vec3i(0, 0, 0)) && |D| == Volume(box) && InBox(p, box)
    requires 0 <= i < 3
    ensures InBox(Double(p), fsz)
    ensures var c := ReducedAt(D, box, fold, fsz, p);
      c.material == At(fold, fsz, Double(p)).material &&
      (Axis(p, i) == 0 ==> c.Edge(i) == 0) &&
      (Axis(p, i) > 0 ==>
        var q := Double(p);
        var hd0, hd1, hd2 := At(fold, fsz, q), At(fold, fsz, Down(q, i)), At(fold, fsz, Down(Down(q, i), i));
        (!Crosses(hd0, hd2) ==> c.Edge(i) == 0) &&
        (Crosses(hd0, hd2) && Crosses(hd0, hd1) ==> c.Edge(i) == hd0.Edge(i) / 2 <= HALF_EDGE) &&
        (Crosses(hd0, hd2) && !Crosses(hd0, hd1) ==> HALF_EDGE <= c.Edge(i) == hd1.Edge(i) / 2 + HALF_EDGE))
  {
    var cell := Cell(Reduce, fold, fsz, box);
    var o := Vec3i(0, 0, 0);
    Unfold(cell, D, box, box, o, p);
    ReduceStep(fold, fsz, box, p, At(D, box, Add(o, p)), Nb(cell, D, box, box, o, p, 0),
      Nb(cell, D, box, box, o, p, 1), Nb(cell, D, box, box, o, p, 2), i);
    if Axis(p, i) > 0 {
      ReduceReads(fold, fsz, p, i);
    }
  }

  // -----------------------------------------------------------------------
  // create_hermite_cube

  /** In a cube of at least three voxels a side, the edges that get a
      crossing are those the cube's surface crosses: take an edge on axis i
      whose other two coordinates lie strictly inside; it carries the half
      edge exactly when one of its ends is solid and the other air. */
  lemma CubeCrossingsOnSurface(n: int, material: byte, q: Vec3i, i: int)
    requires n >= 3 && material != 0 && 0 <= i < 3 && InBox(q, Vec3i(n, n, n)) && Axis(q, i) > 0
    requires forall j :: 0 <= j < 3 && j != i ==> 0 < Axis(q, j) < n - 1
    ensures CubeCell(n, material, q).Edge(i) == HALF_EDGE <==>
      Crosses(CubeCell(n, material, q), CubeCell(n, material, Down(q, i)))
    ensures CubeCell(n, material, q).Edge(i) != HALF_EDGE ==> CubeCell(n, material, q).Edge(i) == 0
  {
    assert 0 < Axis(q, (i + 1) % 3) < n - 1 && 0 < Axis(q, (i + 2) % 3) < n - 1;
  }
}
