/** `RegionMeshGenerator`: a flat mesh with one quad, two triangles, per
    distinct cell of a region. */
module MeshGenerator {
  import opened Grid
  import opened Collections
  import opened Regions

  /** A texture coordinate (`Vector2`). */
  datatype UV = UV(u: real, v: real)

  /** The parts of the generated `Mesh` the model keeps. */
  datatype Mesh = Mesh(name: string, vertices: seq<Vec3>, triangles: seq<int>, uv: seq<UV>)

  /** The four corners of a cell's quad in the order the generator adds
      them: bottom-left, bottom-right, top-right, top-left. */
  function Quad(c: Cell, cellSize: real): (q: seq<Vec3>)
    ensures |q| == 4
    ensures q[0] == Corner(c, false, false, cellSize) && q[1] == Corner(c, true, false, cellSize)
    ensures q[2] == Corner(c, true, true, cellSize) && q[3] == Corner(c, false, true, cellSize)
  {
    var basePos := Vec3(c.x as real * cellSize, c.y as real * cellSize, 0.0);
    var bl := basePos;
    var br := Vec3(basePos.x + cellSize, basePos.y, 0.0);
    var tr := Vec3(basePos.x + cellSize, basePos.y + cellSize, 0.0);
    var tl := Vec3(basePos.x, basePos.y + cellSize, 0.0);
    [bl, br, tr, tl]
  }

  /** The six triangle indices the `k`-th quad adds: (bl, tr, br) and
      (bl, tl, tr) over its vertices `4k` to `4k + 3`. */
  function QuadIndices(k: int): seq<int>
  {
    var vertOffset := 4 * k;
    [vertOffset, vertOffset + 2, vertOffset + 1, vertOffset, vertOffset + 3, vertOffset + 2]
  }

  /** The vertex list of a mesh over `cells`, in visiting order. */
  function MeshVertices(cells: seq<Cell>, cellSize: real): seq<Vec3>
    decreases |cells|
  {
    if cells == [] then []
    else MeshVertices(cells[..|cells| - 1], cellSize) + Quad(cells[|cells| - 1], cellSize)
  }

  /** The triangle list of a mesh over `n` cells. */
  function MeshTriangles(n: nat): seq<int>
  {
    if n == 0 then [] else MeshTriangles(n - 1) + QuadIndices(n - 1)
  }

  /** `GenerateRegionMesh`: the contained cells are put into a hash set and
      visited in its order, which the model returns as `cells`; each cell
      adds its quad's four vertices, two triangles over them and one UV per
      vertex. Both UV branches map a vertex position to a UV by a fixed rule
      (world UVs or region-local UVs), passed in as `uvOf`. A region with no
      cells makes `ContainedCoords.Min()` throw before any mesh is built:
      the result is then `None`. */
  method GenerateRegionMesh(region: RegionData, cellSize: real, uvOf: Vec3 -> UV)
    returns (result: Option<Mesh>, cells: seq<Cell>)
    ensures result.None? <==> |region.containedCoords| == 0
    ensures Elements(cells) == Elements(region.containedCoords) && Distinct(cells)
    ensures result.Some? ==> result.value.name == region.regionName + "_Mesh"
    ensures result.Some? ==> result.value.vertices == MeshVertices(cells, cellSize)
    ensures result.Some? ==> result.value.triangles == MeshTriangles(|cells|)
    ensures result.Some? ==> |result.value.uv| == |result.value.vertices|
    ensures result.Some? ==> forall k :: 0 <= k < |result.value.uv| ==>
      result.value.uv[k] == uvOf(result.value.vertices[k])
  {
    cells := Enumerate(Elements(region.containedCoords));
    if |region.containedCoords| == 0 {
      return None, cells;
    }
    var vertices: seq<Vec3> := [];
    var triangles: seq<int> := [];
    var uvs: seq<UV> := [];
    var vertOffset := 0;
    for k := 0 to |cells|
      invariant vertOffset == 4 * k
      invariant vertices == MeshVertices(cells[..k], cellSize)
      invariant triangles == MeshTriangles(k)
      invariant |uvs| == |vertices|
      invariant forall m :: 0 <= m < |uvs| ==> uvs[m] == uvOf(vertices[m])
    {
      assert cells[..k + 1][..k] == cells[..k];
      var q := Quad(cells[k], cellSize);
      var bl, br, tr, tl := q[0], q[1], q[2], q[3];
      vertices := vertices + [bl, br, tr, tl];
      var quadTriangles := [vertOffset, vertOffset + 2, vertOffset + 1, vertOffset, vertOffset + 3, vertOffset + 2];
      assert quadTriangles == QuadIndices(k);
      triangles := triangles + quadTriangles;
      uvs := uvs + [uvOf(bl), uvOf(br), uvOf(tr), uvOf(tl)];
      vertOffset := vertOffset + 4;
    }
    assert cells[..|cells|] == cells;
    result := Some(Mesh(region.regionName + "_Mesh", vertices, triangles, uvs));
  }

  /** Quad `i` of the mesh occupies vertices `4i` to `4i + 3`, holding the
      corners of the `i`-th visited cell. */
  lemma {:induction false} MeshVerticesLayout(cells: seq<Cell>, cellSize: real)
    ensures |MeshVertices(cells, cellSize)| == 4 * |cells|
    ensures forall i, j :: 0 <= i < |cells| && 0 <= j < 4 ==>
      MeshVertices(cells, cellSize)[4 * i + j] == Quad(cells[i], cellSize)[j]
    decreases |cells|
  {
    if cells != [] {
      var init := cells[..|cells| - 1];
      MeshVerticesLayout(init, cellSize);
      var prefix := MeshVertices(init, cellSize);
      var last := Quad(cells[|cells| - 1], cellSize);
      var v := MeshVertices(cells, cellSize);
      assert v == prefix + last;
      forall i, j | 0 <= i < |cells| && 0 <= j < 4
        ensures v[4 * i + j] == Quad(cells[i], cellSize)[j]
      {
        if i < |init| {
          assert 4 * i + j < |prefix|;
          assert cells[i] == init[i];
        } else {
          assert 4 * i + j == |prefix| + j;
        }
      }
    }
  }

  /** Quad `i` adds triangle indices `6i` to `6i + 5`, its two triangles
      over its own four vertices, and every index names a vertex. */
  lemma {:induction false} MeshTrianglesLayout(n: nat)
    ensures |MeshTriangles(n)| == 6 * n
    ensures forall i, j :: 0 <= i < n && 0 <= j < 6 ==> MeshTriangles(n)[6 * i + j] == QuadIndices(i)[j]
    ensures forall t :: 0 <= t < |MeshTriangles(n)| ==> 0 <= MeshTriangles(n)[t] < 4 * n
  {
    if n > 0 {
      MeshTrianglesLayout(n - 1);
    }
  }

  /** A generated mesh has four vertices and six indices per distinct cell,
      and its triangles only name its own vertices. */
  lemma MeshIsWellFormed(cells: seq<Cell>, cellSize: real)
    ensures |MeshVertices(cells, cellSize)| == 4 * |cells| && |MeshTriangles(|cells|)| == 6 * |cells|
    ensures forall t :: 0 <= t < |MeshTriangles(|cells|)| ==>
      0 <= MeshTriangles(|cells|)[t] < |MeshVertices(cells, cellSize)|
  {
    MeshVerticesLayout(cells, cellSize);
    MeshTrianglesLayout(|cells|);
  }

  /** The sides of a cell's quad are the world segments of the cell's four
      edges, so a region's mesh and its perimeter outline agree. */
  lemma QuadSidesAreEdges(c: Cell, cellSize: real)
    ensures ToWorldVerts(GridEdge(c, Bottom), cellSize) == [Quad(c, cellSize)[0], Quad(c, cellSize)[1]]
    ensures ToWorldVerts(GridEdge(c, Right), cellSize) == [Quad(c, cellSize)[1], Quad(c, cellSize)[2]]
    ensures ToWorldVerts(GridEdge(c, Top), cellSize) == [Quad(c, cellSize)[3], Quad(c, cellSize)[2]]
    ensures ToWorldVerts(GridEdge(c, Left), cellSize) == [Quad(c, cellSize)[0], Quad(c, cellSize)[3]]
  {
    WorldVertsAreCorners(c, cellSize);
  }

  /** Twice the signed area of the triangle (a, b, c) in the xy plane. */
  function Cross(a: Vec3, b: Vec3, c: Vec3): real
  {
    (b.x - a.x) * (c.y - a.y) - (b.y - a.y) * (c.x - a.x)
  }

  /** With a positive cell size both triangles of a quad are non-degenerate
      and have the same (clockwise, x right and y up) winding, each of area
      half a cell. */
  lemma QuadTrianglesClockwise(c: Cell, cellSize: real)
    requires cellSize > 0.0
    ensures var q := Quad(c, cellSize);
      var t := QuadIndices(0);
      Cross(q[t[0]], q[t[1]], q[t[2]]) == -(cellSize * cellSize) &&
      Cross(q[t[3]], q[t[4]], q[t[5]]) == -(cellSize * cellSize)
    ensures cellSize * cellSize > 0.0
  {
    var q := Quad(c, cellSize);
    var s := cellSize;
    assert q[2].x - q[0].x == s && q[2].y - q[0].y == s;
    assert q[1].x - q[0].x == s && q[1].y - q[0].y == 0.0;
    assert q[3].x - q[0].x == 0.0 && q[3].y - q[0].y == s;
  }

  /** The two triangles of a quad use exactly its four vertices and share
      the diagonal from bottom-left to top-right. */
  lemma QuadTrianglesCoverQuad(k: int)
    ensures (set j | 0 <= j < 6 :: QuadIndices(k)[j]) == {4 * k, 4 * k + 1, 4 * k + 2, 4 * k + 3}
    ensures QuadIndices(k)[0] == QuadIndices(k)[3] && QuadIndices(k)[1] == QuadIndices(k)[5]
  {
    var t := QuadIndices(k);
    var used := set j | 0 <= j < 6 :: t[j];
    assert t[0] in used && t[2] in used && t[1] in used && t[4] in used;
  }

  /** With a non-zero cell size different cells have different quads, so a
      mesh over distinct cells has no quad twice. */
  lemma DistinctCellsDistinctQuads(c: Cell, d: Cell, cellSize: real)
    requires cellSize != 0.0 && c != d
    ensures Quad(c, cellSize)[0] != Quad(d, cellSize)[0]
  {
    if c.x != d.x {
      ScaleInjective(c.x, d.x, cellSize);
    } else {
      ScaleInjective(c.y, d.y, cellSize);
    }
  }

  lemma ScaleInjective(a: int, b: int, s: real)
    requires s != 0.0 && a != b
    ensures a as real * s != b as real * s
  {
    assert (a as real - b as real) * s != 0.0;
  }
}
