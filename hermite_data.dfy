/** Geometry/HermiteData: one voxel of a Hermite field. The material is 0
    for air; each of the three edges running from the voxel to its lower
    neighbour along x, y and z carries where the surface crosses it, in
    255ths of the edge. */
module HermiteCells {
  import ByteIO

  type byte = ByteIO.byte

  datatype Hermite = Hermite(material: byte, xEdge: byte, yEdge: byte, zEdge: byte)
  {
    /** edges[i]: the union's indexed view of the three edge fields. */
    function Edge(i: int): byte
      requires 0 <= i < 3
    {
      if i == 0 then xEdge else if i == 1 then yEdge else zEdge
    }
  }

  /** HermiteData_HalfEdge(): a crossing in the middle of the edge. */
  const HALF_EDGE: byte := 127

  /** HermiteData_Air() */
  const AIR := Hermite(0, 0, 0, 0)

  /** edge_has_intersection: the surface crosses an edge exactly when one
      end is air and the other is not. */
  predicate Crosses(a: Hermite, b: Hermite)
  {
    (a.material == 0) != (b.material == 0)
  }

  /** src < dst ? src : dst */
  function Min(a: byte, b: byte): byte
  {
    if a < b then a else b
  }

  /** src > dst ? src : dst */
  function Max(a: byte, b: byte): byte
  {
    if a > b then a else b
  }
}
