/** Geometry/Global: the voxel grid's constants and its index helpers —
    linear offsets into boxes and slabs, the scale of a level of detail,
    and the corners of a 2x2x2 block. */
module Global {
  import opened Arith
  import opened Bits

  datatype Vec3i = Vec3i(x: int, y: int, z: int)
  datatype Vec2i = Vec2i(x: int, y: int)

  /** CHUNK_SIZE, the same on every axis. */
  const CHUNK_SIZE := 32
  const STORAGE_CHUNK_SIZE := 16
  const LODS_N := 3
  const LAST_LOD := LODS_N - 1

  function Add(a: Vec3i, b: Vec3i): Vec3i
  {
    Vec3i(a.x + b.x, a.y + b.y, a.z + b.z)
  }

  function Sub(a: Vec3i, b: Vec3i): Vec3i
  {
    Vec3i(a.x - b.x, a.y - b.y, a.z - b.z)
  }

  predicate InBox(p: Vec3i, size: Vec3i)
  {
    0 <= p.x < size.x && 0 <= p.y < size.y && 0 <= p.z < size.z
  }

  function Volume(size: Vec3i): int
  {
    size.x * size.y * size.z
  }

  /** offset_3d: x varies fastest, then y, then z. Points of the box land
      in [0, volume). */
  function Offset3d(p: Vec3i, size: Vec3i): (r: int)
    ensures InBox(p, size) ==> 0 <= r < Volume(size)
  {
    var o := (p.z * size.y + p.y) * size.x + p.x;
    if InBox(p, size) then
      PlaneBound(p.x, p.y, size.x, size.y);
      BoxBound(p.z, p.y * size.x + p.x, size.x * size.y, size.z);
      o
    else o
  }

  lemma PlaneBound(x: int, y: int, sx: int, sy: int)
    requires 0 <= x < sx && 0 <= y < sy
    ensures 0 <= y * sx + x < sx * sy
  {
    assert y * sx <= (sy - 1) * sx;
  }

  lemma BoxBound(z: int, rest: int, plane: int, sz: int)
    requires 0 <= z < sz && 0 <= rest < plane
    ensures 0 <= z * plane + rest < plane * sz
  {
    assert z * plane <= (sz - 1) * plane;
  }

  /** The point at an offset: the inverse of offset_3d. */
  function PointAt(o: int, size: Vec3i): Vec3i
    requires size.x > 0 && size.y > 0
  {
    Vec3i(o % size.x, (o / size.x) % size.y, (o / size.x) / size.y)
  }

  /** offset_3d is one-to-one on the box ... */
  lemma Offset3dInverse(p: Vec3i, size: Vec3i)
    requires InBox(p, size)
    ensures PointAt(Offset3d(p, size), size) == p
  {
    var o := Offset3d(p, size);
    DivModUnique(o, size.x, p.z * size.y + p.y, p.x);
    DivModUnique(p.z * size.y + p.y, size.y, p.z, p.y);
  }

  /** ... and onto [0, volume). */
  lemma Offset3dOnto(o: int, size: Vec3i)
    requires size.x > 0 && size.y > 0 && 0 <= o < Volume(size)
    ensures InBox(PointAt(o, size), size) && Offset3d(PointAt(o, size), size) == o
  {
    var q := o / size.x;
    var z := q / size.y;
    assert o == size.x * q + o % size.x;
    assert q == size.y * z + q % size.y;
    assert Volume(size) == size.x * (size.y * size.z);
    DivBelow(o, size.x, size.y * size.z);
    DivBelow(q, size.y, size.z);
    var p := PointAt(o, size);
    assert p == Vec3i(o % size.x, q % size.y, z);
    assert Offset3d(p, size) == (z * size.y + q % size.y) * size.x + o % size.x;
  }

  /** C's % truncates toward zero. */
  function CRem(a: int, b: int): (r: int)
    requires b > 0
    ensures a >= 0 ==> r == a % b
    ensures -b < r < b
  {
    if a >= 0 then a % b else -((-a) % b)
  }

  /** C's / truncates toward zero. */
  function CDiv(a: int, b: int): (q: int)
    requires b > 0
    ensures a >= 0 ==> q == a / b
    ensures a == b * q + CRem(a, b)
  {
    if a >= 0 then a / b else -((-a) / b)
  }

  /** offset_3d_slab: a layer of a two-layer slab chosen by the parity of
      z. For z >= 0 it is offset_3d into a box two layers deep, at layer
      z mod 2, so it stays in [0, 2 x y). */
  function Offset3dSlab(p: Vec3i, size: Vec3i): (r: int)
    ensures p.z >= 0 ==> r == Offset3d(Vec3i(p.x, p.y, p.z % 2), Vec3i(size.x, size.y, 2))
    ensures p.z >= 0 && 0 <= p.x < size.x && 0 <= p.y < size.y ==> 0 <= r < 2 * size.x * size.y
  {
    var r := size.x * size.y * CRem(p.z, 2) + p.y * size.x + p.x;
    if p.z >= 0 then
      assert r == (p.z % 2 * size.y + p.y) * size.x + p.x;
      r
    else r
  }

  /** offset_2d: x varies fastest. */
  function Offset2d(p: Vec2i, size: Vec2i): (r: int)
    ensures 0 <= p.x < size.x && 0 <= p.y < size.y ==> 0 <= r < size.x * size.y
  {
    var r := p.y * size.x + p.x;
    if 0 <= p.x < size.x && 0 <= p.y < size.y then
      PlaneBound(p.x, p.y, size.x, size.y);
      r
    else r
  }

  /** offset_2d is one-to-one on the rectangle. */
  lemma Offset2dInverse(p: Vec2i, size: Vec2i)
    requires 0 <= p.x < size.x && 0 <= p.y < size.y
    ensures Offset2d(p, size) % size.x == p.x && Offset2d(p, size) / size.x == p.y
  {
    DivModUnique(Offset2d(p, size), size.x, p.y, p.x);
  }

  /** 1 << n, as repeated doubling. */
  function Shl1(n: nat): int
  {
    if n == 0 then 1 else 2 * Shl1(n - 1)
  }

  /** lod_factor: how many voxels of level 0 one voxel of level lod spans
      along an axis. The source shifts a 32-bit int, defined for
      0 <= lod < 31. */
  function LodFactor(lod: int): (r: int)
    requires 0 <= lod < 31
    ensures r == Pow2(lod)
  {
    ShlIsPow2(lod);
    Shl1(lod)
  }

  lemma {:induction false} ShlIsPow2(n: nat)
    ensures Shl1(n) == Pow2(n)
  {
    if n > 0 {
      ShlIsPow2(n - 1);
    }
  }

  /** offset_for_lod: double once per step from lod up to largest_lod.
      With lod > largest_lod the source's loop does not stop before the
      counter overflows, so the model asks for lod <= largest. The final
      increment of the counter after the last test is not observable. */
  method OffsetForLod(lod: int, largest: int) returns (offset: int)
    requires lod <= largest
    ensures offset == Pow2(largest - lod)
  {
    offset := 1;
    var l := lod;
    while l != largest
      invariant lod <= l <= largest && offset == Pow2(l - lod)
      decreases largest - l
    {
      l := l + 1;
      offset := offset * 2;
    }
  }

  /** A voxel of level lod, scaled by offset_for_lod, spans as many level-0
      voxels as one voxel of the largest level. */
  lemma LodScale(lod: nat, largest: nat)
    requires lod <= largest < 31
    ensures Pow2(largest - lod) * LodFactor(lod) == LodFactor(largest)
  {
    Pow2Add(largest - lod, lod);
  }

  /** rel22: the corner of a 2x2x2 block numbered n, as bits 0, 1 and 2 of
      n. Dafny's floor division and Euclidean remainder are the arithmetic
      shift and the mask on a two's complement int. */
  function Rel22(n: int): (v: Vec3i)
    ensures 0 <= v.x <= 1 && 0 <= v.y <= 1 && 0 <= v.z <= 1
  {
    Vec3i(n % 2, (n / 2) % 2, (n / 4) % 2)
  }

  /** For n in [0, 8) the corner's coordinates are n's binary digits ... */
  lemma Rel22Digits(n: int)
    requires 0 <= n < 8
    ensures n == Rel22(n).x + 2 * Rel22(n).y + 4 * Rel22(n).z
  {
  }

  /** ... and every corner of the block is numbered once. */
  lemma Rel22Onto(v: Vec3i)
    requires 0 <= v.x <= 1 && 0 <= v.y <= 1 && 0 <= v.z <= 1
    ensures Rel22(v.x + 2 * v.y + 4 * v.z) == v
  {
  }
}
