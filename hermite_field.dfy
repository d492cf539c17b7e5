/** Geometry/HermiteField: a box of Hermite voxels stored x fastest, then y,
    then z, and the passes that edit it — union, difference and paint with
    a brush field placed at an offset, halving the resolution, and a cube
    brush.

    Every pass visits the cells of a box in the order z, y, x and rewrites
    the visited cell in place from itself, from the brush and — for union
    and the edge pass of difference — from its lower neighbours along x, y
    and z. Those neighbours were visited earlier in the same pass, so they
    already hold their new values. Closed states the value a visited cell
    ends with; it reads the new values of the neighbours by recursion. */
module HermiteFields {
  import opened Arith
  import opened Global
  import opened HermiteCells

  // -----------------------------------------------------------------------
  // Indexing

  /** p[i] */
  function Axis(p: Vec3i, i: int): int
    requires 0 <= i < 3
  {
    if i == 0 then p.x else if i == 1 then p.y else p.z
  }

  /** p with p[i] decremented: the other end of the edge on axis i. */
  function Down(p: Vec3i, i: int): Vec3i
    requires 0 <= i < 3
  {
    if i == 0 then Vec3i(p.x - 1, p.y, p.z)
    else if i == 1 then Vec3i(p.x, p.y - 1, p.z)
    else Vec3i(p.x, p.y, p.z - 1)
  }

  /** offsets2[i] of reduce_field: how far apart p and Down(p, i) lie in the
      data. */
  function Stride(size: Vec3i, i: int): int
    requires 0 <= i < 3
  {
    if i == 0 then 1 else if i == 1 then size.x else size.x * size.y
  }

  lemma DownOffset(p: Vec3i, size: Vec3i, i: int)
    requires 0 <= i < 3
    ensures Offset3d(Down(p, i), size) == Offset3d(p, size) - Stride(size, i)
  {
    if i == 1 {
      assert (p.z * size.y + p.y - 1) * size.x == (p.z * size.y + p.y) * size.x - size.x;
    } else if i == 2 {
      assert ((p.z - 1) * size.y + p.y) * size.x == (p.z * size.y + p.y) * size.x - size.x * size.y;
    }
  }

  /** pos * Vec3i(2) */
  function Double(p: Vec3i): Vec3i
  {
    Vec3i(2 * p.x, 2 * p.y, 2 * p.z)
  }

  predicate NonNeg(v: Vec3i)
  {
    v.x >= 0 && v.y >= 0 && v.z >= 0
  }

  predicate Empty(v: Vec3i)
  {
    v.x == 0 || v.y == 0 || v.z == 0
  }

  lemma VolumeNonNeg(v: Vec3i)
    requires NonNeg(v)
    ensures Volume(v) >= 0
  {
    assert v.x * v.y >= 0;
  }

  /** A box of size box placed at o lies inside a field of size fs. */
  predicate Fits(o: Vec3i, box: Vec3i, fs: Vec3i)
  {
    Empty(box) ||
    (0 <= o.x && o.x + box.x <= fs.x && 0 <= o.y && o.y + box.y <= fs.y &&
     0 <= o.z && o.z + box.z <= fs.z)
  }

  /** get(p) */
  function At(d: seq<Hermite>, size: Vec3i, p: Vec3i): Hermite
    requires |d| == Volume(size) && InBox(p, size)
  {
    d[Offset3d(p, size)]
  }

  // -----------------------------------------------------------------------
  // The per-cell work of each pass

  datatype Op =
    | Union          // apply_union
    | DiffEdges      // the first pass of apply_difference
    | DiffMaterial   // the second pass of apply_difference
    | Paint          // apply_paint
    | Reduce         // reduce_field
    | Cube(material: byte)  // the drawing pass of create_hermite_cube

  /** What a pass over box reads from its source field s of size ss: the
      brush passes read the brush at the visited position, reduce_field
      reads the old field at twice it, the cube reads nothing. */
  predicate SrcFits(op: Op, ss: Vec3i, box: Vec3i)
  {
    match op
    case Reduce => Empty(box) || InBox(Double(Sub(box, Vec3i(1, 1, 1))), ss)
    case Cube(_) => true
    case _ => box == ss
  }

  /** Everything a pass needs: the box, placed at o, lies in the field of
      size fs; the brush passes visit the whole brush; reduce_field and the
      cube visit the whole field. */
  predicate Ready(op: Op, fs: Vec3i, s: seq<Hermite>, ss: Vec3i, box: Vec3i, o: Vec3i)
  {
    Placed(fs, box, o) && NonNeg(ss) && |s| == Volume(ss) && SrcFits(op, ss, box) &&
    (op.Reduce? || op.Cube? ==> o == Vec3i(0, 0, 0) && box == fs)
  }

  /** apply_union, edge i of the cell at brush position p: d is the cell
      with its material already merged and n its lower neighbour in f. An
      edge on the brush's lower face, or one the brush's surface does not
      cross, is kept; one the merged surface does not cross is cleared;
      otherwise the brush's crossing is taken. */
  function UnionEdge(s: seq<Hermite>, ss: Vec3i, p: Vec3i, i: int, d: Hermite, n: Hermite): byte
    requires |s| == Volume(ss) && InBox(p, ss) && 0 <= i < 3
  {
    if Axis(p, i) == 0 then d.Edge(i)
    else
      var sh, sn := At(s, ss, p), At(s, ss, Down(p, i));
      if !Crosses(sh, sn) then d.Edge(i)
      else if !Crosses(d, n) then 0
      else sh.Edge(i)
  }

  /** apply_difference, first pass, edge i of the cell d at brush position
      p with lower neighbour n. The cases are named by which ends of the
      edge are air (A) or ground (G). */
  function DiffEdge(s: seq<Hermite>, ss: Vec3i, p: Vec3i, i: int, d: Hermite, n: Hermite): byte
    requires |s| == Volume(ss) && InBox(p, ss) && 0 <= i < 3
  {
    if Axis(p, i) == 0 then d.Edge(i)
    else
      var sh, sn := At(s, ss, p), At(s, ss, Down(p, i));
      var srcAir0, srcAir1 := sh.material == 0, sn.material == 0;
      var dstAir0, dstAir1 := d.material == 0, n.material == 0;
      if srcAir0 == srcAir1 then d.Edge(i)
      else if dstAir0 && dstAir1 then d.Edge(i)
      else if srcAir0 != dstAir0 && srcAir1 != dstAir1 then
        (if srcAir0 then Min(sh.Edge(i), d.Edge(i)) else Max(sh.Edge(i), d.Edge(i)))
      else if !dstAir0 && !dstAir1 then sh.Edge(i)
      else 0
  }

  /** reduce_field, edge i of the coarse cell at p: the fine edges from 2p
      down to 2p - 2e_i, read at the flat offsets offset2 - offsets2[i]
      and offset2 - 2 offsets2[i]. A crossing on the nearer fine edge lands
      in the lower half of the coarse edge, one on the farther fine edge in
      the upper half. */
  function ReduceEdge(s: seq<Hermite>, ss: Vec3i, p: Vec3i, i: int): byte
    requires |s| == Volume(ss) && InBox(Double(p), ss) && 0 <= i < 3
  {
    if Axis(p, i) == 0 then 0
    else
      var q := Double(p);
      var offset2 := Offset3d(q, ss);
      DownOffset(q, ss, i);
      DownOffset(Down(q, i), ss, i);
      var hd0 := s[offset2];
      var hd1 := s[offset2 - Stride(ss, i)];
      var hd2 := s[offset2 - Stride(ss, i) * 2];
      if !Crosses(hd0, hd2) then 0
      else if Crosses(hd0, hd1) then hd0.Edge(i) / 2
      else hd1.Edge(i) / 2 + HALF_EDGE
  }

  /** create_hermite_cube, edge i at p in a field of size box: the edges
      starting on the layers 1 and last get a crossing in the middle. */
  function CubeEdge(box: Vec3i, p: Vec3i, i: int, d: Hermite): byte
    requires 0 <= i < 3
  {
    if Axis(p, i) == 1 || Axis(p, i) == Axis(box, i) - 1 then HALF_EDGE else d.Edge(i)
  }

  /** Vec3i(0) < pos && pos < last, compared component by component. */
  predicate Interior(p: Vec3i, box: Vec3i)
  {
    0 < p.x < box.x - 1 && 0 < p.y < box.y - 1 && 0 < p.z < box.z - 1
  }

  /** One step of a pass: the new value of the cell at position p of the
      box, from the cell's value d and the values n0, n1, n2 of its lower
      neighbours along x, y and z (read only by union and the edge pass of
      difference). */
  function CellOp(op: Op, s: seq<Hermite>, ss: Vec3i, box: Vec3i, p: Vec3i,
                  d: Hermite, n0: Hermite, n1: Hermite, n2: Hermite): Hermite
    requires NonNeg(ss) && |s| == Volume(ss) && SrcFits(op, ss, box) && InBox(p, box)
  {
    match op
    case Union =>
      var sh := At(s, ss, p);
      var m := if sh.material != 0 then sh.material else d.material;
      var dm := d.(material := m);
      Hermite(m, UnionEdge(s, ss, p, 0, dm, n0), UnionEdge(s, ss, p, 1, dm, n1),
        UnionEdge(s, ss, p, 2, dm, n2))
    case DiffEdges =>
      Hermite(d.material, DiffEdge(s, ss, p, 0, d, n0), DiffEdge(s, ss, p, 1, d, n1),
        DiffEdge(s, ss, p, 2, d, n2))
    case DiffMaterial =>
      if At(s, ss, p).material != 0 then d.(material := 0) else d
    case Paint =>
      var sh := At(s, ss, p);
      if sh.material != 0 && d.material != 0 then d.(material := sh.material) else d
    case Reduce =>
      Hermite(s[Offset3d(Double(p), ss)].material, ReduceEdge(s, ss, p, 0),
        ReduceEdge(s, ss, p, 1), ReduceEdge(s, ss, p, 2))
    case Cube(material) =>
      Hermite(if Interior(p, box) then material else d.material,
        CubeEdge(box, p, 0, d), CubeEdge(box, p, 1, d), CubeEdge(box, p, 2, d))
  }

  /** A step of a pass as a value: the new cell at box position p from the
      cell d and its lower neighbours n0, n1, n2. */
  type CellFn = (Vec3i, Hermite, Hermite, Hermite, Hermite) -> Hermite

  /** The step of op, reading the source field s of size ss. */
  function Cell(op: Op, s: seq<Hermite>, ss: Vec3i, box: Vec3i): CellFn
  {
    (p: Vec3i, d: Hermite, n0: Hermite, n1: Hermite, n2: Hermite) =>
      if NonNeg(ss) && |s| == Volume(ss) && SrcFits(op, ss, box) && InBox(p, box)
      then CellOp(op, s, ss, box, p, d, n0, n1, n2) else d
  }

  /** The box of a pass, placed at o, lies in the field of size fs. */
  predicate Placed(fs: Vec3i, box: Vec3i, o: Vec3i)
  {
    NonNeg(fs) && NonNeg(box) && Fits(o, box, fs)
  }

  /** The value the cell at box position p ends a pass with, when the pass
      started from the field D: the step applied to the cell's old value
      and to its lower neighbours' values at the end of the pass. */
  function Closed(cell: CellFn, D: seq<Hermite>, fs: Vec3i, box: Vec3i, o: Vec3i, p: Vec3i): Hermite
    requires Placed(fs, box, o) && |D| == Volume(fs) && InBox(p, box)
    decreases p.x + p.y + p.z
  {
    cell(p, At(D, fs, Add(o, p)),
      if p.x > 0 then Closed(cell, D, fs, box, o, Down(p, 0)) else AIR,
      if p.y > 0 then Closed(cell, D, fs, box, o, Down(p, 1)) else AIR,
      if p.z > 0 then Closed(cell, D, fs, box, o, Down(p, 2)) else AIR)
  }

  /** The field after a pass started from D, at field position q: cells
      outside the box placed at o keep their value. */
  function After(cell: CellFn, D: seq<Hermite>, fs: Vec3i, box: Vec3i, o: Vec3i, q: Vec3i): Hermite
    requires Placed(fs, box, o) && |D| == Volume(fs) && InBox(q, fs)
  {
    if InBox(Sub(q, o), box) then Closed(cell, D, fs, box, o, Sub(q, o)) else At(D, fs, q)
  }

  /** The step as the loop takes it, on the field d as it stands. */
  function Step(cell: CellFn, d: seq<Hermite>, fs: Vec3i, box: Vec3i, o: Vec3i, p: Vec3i): Hermite
    requires Placed(fs, box, o) && |d| == Volume(fs) && InBox(p, box)
  {
    var dst := Add(o, p);
    cell(p, At(d, fs, dst),
      if p.x > 0 then At(d, fs, Down(dst, 0)) else AIR,
      if p.y > 0 then At(d, fs, Down(dst, 1)) else AIR,
      if p.z > 0 then At(d, fs, Down(dst, 2)) else AIR)
  }

  // -----------------------------------------------------------------------
  // The traversal

  /** The field part-way through a pass: the cells the pass visited before
      box offset k hold their final values, all others their old ones. */
  ghost predicate Partial(cell: CellFn, d: seq<Hermite>, D: seq<Hermite>, fs: Vec3i,
                          box: Vec3i, o: Vec3i, k: int)
    requires Placed(fs, box, o) && |D| == Volume(fs)
  {
    |d| == Volume(fs) &&
    forall q :: InBox(q, fs) ==>
      d[Offset3d(q, fs)] ==
        if InBox(Sub(q, o), box) && Offset3d(Sub(q, o), box) < k
        then Closed(cell, D, fs, box, o, Sub(q, o)) else D[Offset3d(q, fs)]
  }

  /** A lower neighbour of the visited cell was visited before it. */
  lemma NeighbourDone(cell: CellFn, d: seq<Hermite>, D: seq<Hermite>, fs: Vec3i,
                      box: Vec3i, o: Vec3i, p: Vec3i, i: int)
    requires Placed(fs, box, o) && |D| == Volume(fs) && InBox(p, box)
    requires Partial(cell, d, D, fs, box, o, Offset3d(p, box))
    requires 0 <= i < 3 && Axis(p, i) > 0
    ensures At(d, fs, Down(Add(o, p), i)) == Closed(cell, D, fs, box, o, Down(p, i))
  {
    var n := Down(p, i);
    DownOffset(p, box, i);
    MulAtLeast(box.x, box.y);
    assert Down(Add(o, p), i) == Add(o, n);
    assert Sub(Add(o, n), o) == n;
  }

  /** On a field part-way through the pass, the loop's step computes the
      visited cell's final value. */
  lemma StepIsClosed(cell: CellFn, d: seq<Hermite>, D: seq<Hermite>, fs: Vec3i,
                     box: Vec3i, o: Vec3i, p: Vec3i)
    requires Placed(fs, box, o) && |D| == Volume(fs) && InBox(p, box)
    requires Partial(cell, d, D, fs, box, o, Offset3d(p, box))
    ensures Step(cell, d, fs, box, o, p) == Closed(cell, D, fs, box, o, p)
  {
    assert Sub(Add(o, p), o) == p;
    if p.x > 0 {
      NeighbourDone(cell, d, D, fs, box, o, p, 0);
    }
    if p.y > 0 {
      NeighbourDone(cell, d, D, fs, box, o, p, 1);
    }
    if p.z > 0 {
      NeighbourDone(cell, d, D, fs, box, o, p, 2);
    }
  }

  /** Writing the step's value into the visited cell moves the pass on by
      one cell. */
  lemma StepKeeps(cell: CellFn, d: seq<Hermite>, D: seq<Hermite>, fs: Vec3i,
                  box: Vec3i, o: Vec3i, p: Vec3i)
    requires Placed(fs, box, o) && |D| == Volume(fs) && InBox(p, box)
    requires Partial(cell, d, D, fs, box, o, Offset3d(p, box))
    ensures Partial(cell, d[Offset3d(Add(o, p), fs) := Step(cell, d, fs, box, o, p)],
      D, fs, box, o, Offset3d(p, box) + 1)
  {
    var dst := Add(o, p);
    var k := Offset3d(p, box);
    StepIsClosed(cell, d, D, fs, box, o, p);
    var d' := d[Offset3d(dst, fs) := Step(cell, d, fs, box, o, p)];
    forall q | InBox(q, fs)
      ensures d'[Offset3d(q, fs)] ==
        if InBox(Sub(q, o), box) && Offset3d(Sub(q, o), box) < k + 1
        then Closed(cell, D, fs, box, o, Sub(q, o)) else D[Offset3d(q, fs)]
    {
      if q == dst {
        assert Sub(q, o) == p;
      } else {
        OffsetsDiffer(q, dst, fs);
        if InBox(Sub(q, o), box) {
          OffsetsDiffer(Sub(q, o), p, box);
        }
      }
    }
  }

  /** Two points of a box have different offsets. */
  lemma OffsetsDiffer(p: Vec3i, q: Vec3i, size: Vec3i)
    requires InBox(p, size) && InBox(q, size) && p != q
    ensures Offset3d(p, size) != Offset3d(q, size)
  {
    Offset3dInverse(p, size);
    Offset3dInverse(q, size);
  }

  lemma NextOffset(p: Vec3i, box: Vec3i)
    ensures Offset3d(Vec3i(p.x + 1, p.y, p.z), box) == Offset3d(p, box) + 1
  {
  }

  lemma RowDone(box: Vec3i, y: int, z: int)
    ensures Offset3d(Vec3i(box.x, y, z), box) == Offset3d(Vec3i(0, y + 1, z), box)
  {
    assert (z * box.y + y + 1) * box.x == (z * box.y + y) * box.x + box.x;
  }

  lemma PlaneDone(box: Vec3i, z: int)
    ensures Offset3d(Vec3i(0, box.y, z), box) == Offset3d(Vec3i(0, 0, z + 1), box)
  {
    assert (z + 1) * box.y == z * box.y + box.y;
  }

  /** One row of a pass: the cells (x, y, z) for x from 0 to box.x. */
  method PassRow(d0: seq<Hermite>, ghost D: seq<Hermite>, fs: Vec3i, box: Vec3i, o: Vec3i,
                 cell: CellFn, y: int, z: int) returns (d: seq<Hermite>)
    requires Placed(fs, box, o) && |D| == Volume(fs) && 0 <= y < box.y && 0 <= z < box.z
    requires Partial(cell, d0, D, fs, box, o, Offset3d(Vec3i(0, y, z), box))
    ensures Partial(cell, d, D, fs, box, o, Offset3d(Vec3i(0, y + 1, z), box))
  {
    d := d0;
    for x := 0 to box.x
      invariant Partial(cell, d, D, fs, box, o, Offset3d(Vec3i(x, y, z), box))
    {
      var p := Vec3i(x, y, z);
      StepKeeps(cell, d, D, fs, box, o, p);
      d := d[Offset3d(Add(o, p), fs) := Step(cell, d, fs, box, o, p)];
      NextOffset(p, box);
    }
    RowDone(box, y, z);
  }

  /** One plane of a pass: the rows y from 0 to box.y at height z. */
  method PassPlane(d0: seq<Hermite>, ghost D: seq<Hermite>, fs: Vec3i, box: Vec3i, o: Vec3i,
                   cell: CellFn, z: int) returns (d: seq<Hermite>)
    requires Placed(fs, box, o) && |D| == Volume(fs) && 0 <= z < box.z
    requires Partial(cell, d0, D, fs, box, o, Offset3d(Vec3i(0, 0, z), box))
    ensures Partial(cell, d, D, fs, box, o, Offset3d(Vec3i(0, 0, z + 1), box))
  {
    d := d0;
    for y := 0 to box.y
      invariant Partial(cell, d, D, fs, box, o, Offset3d(Vec3i(0, y, z), box))
    {
      d := PassRow(d, D, fs, box, o, cell, y, z);
    }
    PlaneDone(box, z);
  }

  /** A pass that visited the whole box has left every cell at its After
      value. */
  lemma Finished(cell: CellFn, d: seq<Hermite>, D: seq<Hermite>, fs: Vec3i, box: Vec3i, o: Vec3i)
    requires Placed(fs, box, o) && |D| == Volume(fs)
    requires Partial(cell, d, D, fs, box, o, Offset3d(Vec3i(0, 0, box.z), box))
    ensures |d| == |D|
    ensures forall q :: InBox(q, fs) ==> d[Offset3d(q, fs)] == After(cell, D, fs, box, o, q)
  {
    assert Offset3d(Vec3i(0, 0, box.z), box) == Volume(box);
  }

  /** One pass: visit the box placed at o in the order z, y, x, rewriting
      each visited cell in place with the step. Every visited cell ends
      with its Closed value; every other cell keeps its value. */
  method Pass(d0: seq<Hermite>, fs: Vec3i, box: Vec3i, o: Vec3i, cell: CellFn)
    returns (d: seq<Hermite>)
    requires Placed(fs, box, o) && |d0| == Volume(fs)
    ensures |d| == |d0|
    ensures forall q :: InBox(q, fs) ==> d[Offset3d(q, fs)] == After(cell, d0, fs, box, o, q)
  {
    d := d0;
    for z := 0 to box.z
      invariant Partial(cell, d, d0, fs, box, o, Offset3d(Vec3i(0, 0, z), box))
    {
      d := PassPlane(d, d0, fs, box, o, cell, z);
    }
    Finished(cell, d, d0, fs, box, o);
  }

  // -----------------------------------------------------------------------
  // The field and its operations

  class HermiteField {
    var data: seq<Hermite>
    var size: Vec3i

    predicate Valid()
      reads this
    {
      NonNeg(size) && |data| == Volume(size)
    }

    /** HermiteField(size): one cell per voxel of the box. */
    constructor (size0: Vec3i)
      requires NonNeg(size0)
      ensures Valid() && size == size0
    {
      VolumeNonNeg(size0);
      size := size0;
      data := seq(Volume(size0), _ => AIR);
    }

    /** resize(newsize): the data takes the new volume and keeps its
        leading cells. */
    method Resize(newsize: Vec3i)
      requires NonNeg(newsize)
      modifies this
      ensures Valid() && size == newsize
      ensures |old(data)| <= |data| ==> data[..|old(data)|] == old(data)
      ensures |data| <= |old(data)| ==> data == old(data)[..|data|]
    {
      VolumeNonNeg(newsize);
      var n := Volume(newsize);
      size := newsize;
      if n <= |data| {
        data := data[..n];
      } else {
        data := data + seq(n - |data|, _ => AIR);
      }
    }
  }

  /** The union of the brush s of size ss placed at o, at brush position p. */
  function UnionAt(D: seq<Hermite>, fs: Vec3i, s: seq<Hermite>, ss: Vec3i, o: Vec3i, p: Vec3i): Hermite
    requires Ready(Union, fs, s, ss, ss, o) && |D| == Volume(fs) && InBox(p, ss)
  {
    Closed(Cell(Union, s, ss, ss), D, fs, ss, o, p)
  }

  /** apply_union: the brush diff placed at offset is merged into f. */
  method ApplyUnion(f: HermiteField, diff: HermiteField, offset: Vec3i)
    requires f.Valid() && diff.Valid() && f != diff && Fits(offset, diff.size, f.size)
    modifies f
    ensures f.Valid() && f.size == old(f.size)
    ensures forall q :: InBox(q, f.size) ==>
      f.data[Offset3d(q, f.size)] ==
        if InBox(Sub(q, offset), diff.size)
        then UnionAt(old(f.data), f.size, diff.data, diff.size, offset, Sub(q, offset))
        else old(f.data)[Offset3d(q, f.size)]
  {
    f.data := Pass(f.data, f.size, diff.size, offset, Cell(Union, diff.data, diff.size, diff.size));
  }

  /** The paint of the brush s placed at o, at brush position p. */
  function PaintAt(D: seq<Hermite>, fs: Vec3i, s: seq<Hermite>, ss: Vec3i, o: Vec3i, p: Vec3i): Hermite
    requires Ready(Paint, fs, s, ss, ss, o) && |D| == Volume(fs) && InBox(p, ss)
  {
    Closed(Cell(Paint, s, ss, ss), D, fs, ss, o, p)
  }

  /** apply_paint: the brush's material is painted onto solid cells of f. */
  method ApplyPaint(f: HermiteField, diff: HermiteField, offset: Vec3i)
    requires f.Valid() && diff.Valid() && f != diff && Fits(offset, diff.size, f.size)
    modifies f
    ensures f.Valid() && f.size == old(f.size)
    ensures forall q :: InBox(q, f.size) ==>
      f.data[Offset3d(q, f.size)] ==
        if InBox(Sub(q, offset), diff.size)
        then PaintAt(old(f.data), f.size, diff.data, diff.size, offset, Sub(q, offset))
        else old(f.data)[Offset3d(q, f.size)]
  {
    f.data := Pass(f.data, f.size, diff.size, offset, Cell(Paint, diff.data, diff.size, diff.size));
  }

  /** The cell at brush position p after apply_difference: the edges of
      the first pass, then air wherever the brush is solid. */
  function DifferenceAt(D: seq<Hermite>, fs: Vec3i, s: seq<Hermite>, ss: Vec3i, o: Vec3i,
                        p: Vec3i): Hermite
    requires Ready(DiffEdges, fs, s, ss, ss, o) && |D| == Volume(fs) && InBox(p, ss)
  {
    var c := Closed(Cell(DiffEdges, s, ss, ss), D, fs, ss, o, p);
    if At(s, ss, p).material != 0 then c.(material := 0) else c
  }

  /** apply_difference: the brush diff placed at offset is carved out of f,
      in two passes — first the edges, then the materials. */
  method ApplyDifference(f: HermiteField, diff: HermiteField, offset: Vec3i)
    requires f.Valid() && diff.Valid() && f != diff && Fits(offset, diff.size, f.size)
    modifies f
    ensures f.Valid() && f.size == old(f.size)
    ensures forall q :: InBox(q, f.size) ==>
      f.data[Offset3d(q, f.size)] ==
        if InBox(Sub(q, offset), diff.size)
        then DifferenceAt(old(f.data), f.size, diff.data, diff.size, offset, Sub(q, offset))
        else old(f.data)[Offset3d(q, f.size)]
  {
    var fs, s, ss := f.size, diff.data, diff.size;
    ghost var D := f.data;
    var mid := Pass(f.data, fs, ss, offset, Cell(DiffEdges, s, ss, ss));
    f.data := Pass(mid, fs, ss, offset, Cell(DiffMaterial, s, ss, ss));
    forall q | InBox(q, fs) && InBox(Sub(q, offset), ss)
      ensures f.data[Offset3d(q, fs)] == DifferenceAt(D, fs, s, ss, offset, Sub(q, offset))
    {
      var p := Sub(q, offset);
      assert Add(offset, p) == q;
      var cell := Cell(DiffMaterial, s, ss, ss);
      var n0 := if p.x > 0 then Closed(cell, mid, fs, ss, offset, Down(p, 0)) else AIR;
      var n1 := if p.y > 0 then Closed(cell, mid, fs, ss, offset, Down(p, 1)) else AIR;
      var n2 := if p.z > 0 then Closed(cell, mid, fs, ss, offset, Down(p, 2)) else AIR;
      assert f.data[Offset3d(q, fs)] == cell(p, mid[Offset3d(q, fs)], n0, n1, n2);
      MaterialStep(s, ss, p, mid[Offset3d(q, fs)], n0, n1, n2);
    }
  }

  /** The material pass of apply_difference on one cell. */
  lemma MaterialStep(s: seq<Hermite>, ss: Vec3i, p: Vec3i, d: Hermite, n0: Hermite, n1: Hermite, n2: Hermite)
    requires NonNeg(ss) && |s| == Volume(ss) && InBox(p, ss)
    ensures Cell(DiffMaterial, s, ss, ss)(p, d, n0, n1, n2) ==
      if At(s, ss, p).material != 0 then d.(material := 0) else d
  {
    assert CellOp(DiffMaterial, s, ss, ss, p, d, n0, n1, n2) ==
      if At(s, ss, p).material != 0 then d.(material := 0) else d;
  }

  /** The cell at p after reduce_field from fold, of size fsz, into a field
      of size box. */
  function ReducedAt(D: seq<Hermite>, box: Vec3i, fold: seq<Hermite>, fsz: Vec3i, p: Vec3i): Hermite
    requires Ready(Reduce, box, fold, fsz, box, Vec3i(0, 0, 0)) && |D| == Volume(box) && InBox(p, box)
  {
    Closed(Cell(Reduce, fold, fsz, box), D, box, box, Vec3i(0, 0, 0), p)
  }

  /** reduce_field: fnew, of half fold's resolution, is rebuilt from fold;
      every cell is written. */
  method ReduceField(fnew: HermiteField, fold: HermiteField)
    requires fnew.Valid() && fold.Valid() && fnew != fold
    requires SrcFits(Reduce, fold.size, fnew.size)
    modifies fnew
    ensures fnew.Valid() && fnew.size == old(fnew.size)
    ensures forall q :: InBox(q, fnew.size) ==>
      fnew.data[Offset3d(q, fnew.size)] == ReducedAt(old(fnew.data), fnew.size, fold.data, fold.size, q)
  {
    var fs := fnew.size;
    fnew.data := Pass(fnew.data, fs, fs, Vec3i(0, 0, 0), Cell(Reduce, fold.data, fold.size, fs));
    forall q | InBox(q, fs)
      ensures Sub(q, Vec3i(0, 0, 0)) == q
    {
    }
  }

  /** The cube create_hermite_cube draws into a field of n voxels a side:
      solid strictly inside, air on the boundary layers, and a crossing in
      the middle of every edge starting on layer 1 or layer n - 1. */
  function CubeCell(n: int, material: byte, q: Vec3i): Hermite
  {
    Hermite(if Interior(q, Vec3i(n, n, n)) then material else 0,
      if q.x == 1 || q.x == n - 1 then HALF_EDGE else 0,
      if q.y == 1 || q.y == n - 1 then HALF_EDGE else 0,
      if q.z == 1 || q.z == n - 1 then HALF_EDGE else 0)
  }

  /** The drawing pass over a field of air draws the cube. */
  lemma CubeDrawn(D: seq<Hermite>, n: int, material: byte, q: Vec3i)
    requires n >= 0 && |D| == Volume(Vec3i(n, n, n)) && InBox(q, Vec3i(n, n, n))
    requires forall j :: 0 <= j < |D| ==> D[j] == AIR
    ensures Placed(Vec3i(n, n, n), Vec3i(n, n, n), Vec3i(0, 0, 0))
    ensures Closed(Cell(Cube(material), [], Vec3i(0, 0, 0), Vec3i(n, n, n)), D, Vec3i(n, n, n),
      Vec3i(n, n, n), Vec3i(0, 0, 0), q) == CubeCell(n, material, q)
  {
    var box := Vec3i(n, n, n);
    var cell := Cell(Cube(material), [], Vec3i(0, 0, 0), box);
    assert Add(Vec3i(0, 0, 0), q) == q;
    assert At(D, box, q) == AIR;
    var n0 := if q.x > 0 then Closed(cell, D, box, box, Vec3i(0, 0, 0), Down(q, 0)) else AIR;
    var n1 := if q.y > 0 then Closed(cell, D, box, box, Vec3i(0, 0, 0), Down(q, 1)) else AIR;
    var n2 := if q.z > 0 then Closed(cell, D, box, box, Vec3i(0, 0, 0), Down(q, 2)) else AIR;
    assert Closed(cell, D, box, box, Vec3i(0, 0, 0), q) == cell(q, AIR, n0, n1, n2);
    CubeStep(n, material, q, n0, n1, n2);
  }

  /** The cube's step on a cell of air. */
  lemma CubeStep(n: int, material: byte, q: Vec3i, n0: Hermite, n1: Hermite, n2: Hermite)
    requires n >= 0 && InBox(q, Vec3i(n, n, n))
    ensures Cell(Cube(material), [], Vec3i(0, 0, 0), Vec3i(n, n, n))(q, AIR, n0, n1, n2)
      == CubeCell(n, material, q)
  {
    var box := Vec3i(n, n, n);
    assert CellOp(Cube(material), [], Vec3i(0, 0, 0), box, q, AIR, n0, n1, n2) == CubeCell(n, material, q);
  }

  /** create_hermite_cube: a field of size + 2 voxels a side holding the
      cube, and the location that centres it on center (size / 2 truncates
      like C's division). */
  method CreateHermiteCube(f: HermiteField, center: Vec3i, size: int, material: byte)
    returns (location: Vec3i)
    requires f.Valid() && size >= -2
    modifies f
    ensures location == Sub(center, Vec3i(CDiv(size, 2), CDiv(size, 2), CDiv(size, 2)))
    ensures f.Valid() && f.size == Vec3i(size + 2, size + 2, size + 2)
    ensures forall q :: InBox(q, f.size) ==> f.data[Offset3d(q, f.size)] == CubeCell(size + 2, material, q)
  {
    var half := CDiv(size, 2);
    location := Sub(center, Vec3i(half, half, half));
    var n := size + 2;
    var box := Vec3i(n, n, n);
    f.Resize(box);
    for k := 0 to |f.data|
      invariant f.Valid() && f.size == box
      invariant forall j :: 0 <= j < k ==> f.data[j] == AIR
    {
      f.data := f.data[k := AIR];
    }
    ghost var D := f.data;
    f.data := Pass(f.data, box, box, Vec3i(0, 0, 0), Cell(Cube(material), [], Vec3i(0, 0, 0), box));
    forall q | InBox(q, box)
      ensures f.data[Offset3d(q, box)] == CubeCell(n, material, q)
    {
      CubeDrawn(D, n, material, q);
      assert Sub(q, Vec3i(0, 0, 0)) == q;
    }
  }
}
