/** Map/Position: the range of chunks a change to the voxels [vmin, vmax]
    touches. A voxel on a chunk's lower face also belongs to the chunk
    below, so the lower end reaches one chunk further down there. */
module Positions {
  import opened Arith
  import opened Global

  /** floor_div, floor division by a positive divisor, which Dafny's
      division on int is. */
  function FloorDiv(a: int, b: int): (q: int)
    requires b > 0
    ensures b * q <= a < b * q + b
  {
    a / b
  }

  /** The lower end on one axis: the chunk of v, one lower when v lies on
      the chunk's lower face. */
  function LowChunk(v: int): (c: int)
    ensures c == FloorDiv(v - 1, CHUNK_SIZE)
  {
    var cmin := FloorDiv(v, CHUNK_SIZE);
    var diffmin := v - cmin * CHUNK_SIZE;
    var c := if diffmin == 0 then cmin - 1 else cmin;
    DivModUnique(v - 1, CHUNK_SIZE, c, (v - 1) - CHUNK_SIZE * c);
    c
  }

  /** The upper end on one axis: the chunk of v, one higher when v is a
      whole chunk past it — which floor division never leaves, so the
      increment is never taken. */
  function HighChunk(v: int): (c: int)
    ensures c == FloorDiv(v, CHUNK_SIZE)
  {
    var cmax := FloorDiv(v, CHUNK_SIZE);
    var diffmax := v - cmax * CHUNK_SIZE;
    if diffmax == CHUNK_SIZE then cmax + 1 else cmax
  }

  datatype Range = Range(min: Vec3i, max: Vec3i)

  /** affected_chunks: both ends relative to basechunk. */
  function AffectedChunks(vmin: Vec3i, vmax: Vec3i, basechunk: Vec3i): (r: Range)
    ensures r.min == Add(basechunk, Vec3i(FloorDiv(vmin.x - 1, CHUNK_SIZE),
      FloorDiv(vmin.y - 1, CHUNK_SIZE), FloorDiv(vmin.z - 1, CHUNK_SIZE)))
    ensures r.max == Add(basechunk, Vec3i(FloorDiv(vmax.x, CHUNK_SIZE),
      FloorDiv(vmax.y, CHUNK_SIZE), FloorDiv(vmax.z, CHUNK_SIZE)))
  {
    var cmin := Vec3i(LowChunk(vmin.x), LowChunk(vmin.y), LowChunk(vmin.z));
    var cmax := Vec3i(HighChunk(vmax.x), HighChunk(vmax.y), HighChunk(vmax.z));
    Range(Add(basechunk, cmin), Add(basechunk, cmax))
  }

  /** Floor division keeps the order of its dividends. */
  lemma FloorDivMonotone(a: int, b: int)
    requires a <= b
    ensures FloorDiv(a, CHUNK_SIZE) <= FloorDiv(b, CHUNK_SIZE)
  {
    var qa, qb := FloorDiv(a, CHUNK_SIZE), FloorDiv(b, CHUNK_SIZE);
    if qa > qb {
      MulAtLeast(CHUNK_SIZE, qa - qb);
    }
  }

  /** An ordered voxel range gives an ordered chunk range, and the chunk
      of every voxel in it lies in the chunk range. */
  lemma AffectedOrdered(vmin: Vec3i, vmax: Vec3i, basechunk: Vec3i, v: Vec3i)
    requires vmin.x <= v.x <= vmax.x && vmin.y <= v.y <= vmax.y && vmin.z <= v.z <= vmax.z
    ensures var r := AffectedChunks(vmin, vmax, basechunk);
      var c := Add(basechunk, Vec3i(FloorDiv(v.x, CHUNK_SIZE), FloorDiv(v.y, CHUNK_SIZE), FloorDiv(v.z, CHUNK_SIZE)));
      r.min.x <= c.x <= r.max.x && r.min.y <= c.y <= r.max.y && r.min.z <= c.z <= r.max.z
  {
    FloorDivMonotone(vmin.x - 1, v.x);
    FloorDivMonotone(vmin.y - 1, v.y);
    FloorDivMonotone(vmin.z - 1, v.z);
    FloorDivMonotone(v.x, vmax.x);
    FloorDivMonotone(v.y, vmax.y);
    FloorDivMonotone(v.z, vmax.z);
  }

  /** The lower end is one chunk lower exactly when vmin lies on a chunk's
      lower face; the upper end is always vmax's own chunk. */
  lemma LowerFace(v: int)
    ensures LowChunk(v) == FloorDiv(v, CHUNK_SIZE) - (if v % CHUNK_SIZE == 0 then 1 else 0)
    ensures HighChunk(v) == FloorDiv(v, CHUNK_SIZE)
  {
    var q := v / CHUNK_SIZE;
    if v % CHUNK_SIZE == 0 {
      DivModUnique(v - 1, CHUNK_SIZE, q - 1, CHUNK_SIZE - 1);
    } else {
      DivModUnique(v - 1, CHUNK_SIZE, q, v % CHUNK_SIZE - 1);
    }
  }
}
