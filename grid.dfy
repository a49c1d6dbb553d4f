/** Cells, sides and edges of the integer grid, and the world-space geometry
    of an edge (`GridEdge` and Unity's `Vector2Int` as far as the core uses it). */
module Grid {

  // ---------------------------------------------------------------------------
  // Cells
  // ---------------------------------------------------------------------------

  /** An integer grid coordinate (`Vector2Int`); equality is value equality. */
  datatype Cell = Cell(x: int, y: int)

  function Plus(a: Cell, b: Cell): Cell
  {
    Cell(a.x + b.x, a.y + b.y)
  }

  /** `Vector2Int.up`, `down`, `left` and `right`. */
  const Up := Cell(0, 1)
  const Down := Cell(0, -1)
  const LeftDir := Cell(-1, 0)
  const RightDir := Cell(1, 0)

  /** Two cells share a side. */
  predicate Adjacent(a: Cell, b: Cell)
  {
    (a.x == b.x && (a.y - b.y == 1 || b.y - a.y == 1)) ||
    (a.y == b.y && (a.x - b.x == 1 || b.x - a.x == 1))
  }

  /** The four neighbours in the order the source lists them:
      (x+1, y), (x-1, y), (x, y+1), (x, y-1). */
  function Neighbours4(c: Cell): (ns: seq<Cell>)
    ensures |ns| == 4
    ensures forall n :: n in ns <==> Adjacent(c, n)
    ensures Distinct4(ns)
  {
    [Cell(c.x + 1, c.y), Cell(c.x - 1, c.y), Cell(c.x, c.y + 1), Cell(c.x, c.y - 1)]
  }

  predicate Distinct4(ns: seq<Cell>)
    requires |ns| == 4
  {
    ns[0] != ns[1] && ns[0] != ns[2] && ns[0] != ns[3] &&
    ns[1] != ns[2] && ns[1] != ns[3] && ns[2] != ns[3]
  }

  lemma AdjacentSymmetric(a: Cell, b: Cell)
    ensures Adjacent(a, b) <==> Adjacent(b, a)
  {
  }

  // ---------------------------------------------------------------------------
  // Sides and edges
  // ---------------------------------------------------------------------------

  /** `GridEdge.CellEdge`, declared in the order Top, Bottom, Left, Right. */
  datatype CellEdge = Top | Bottom | Left | Right

  /** The enum's underlying value, which is also its hash code. */
  function Ordinal(side: CellEdge): bv32
  {
    match side
    case Top => 0
    case Bottom => 1
    case Left => 2
    case Right => 3
  }

  /** The cell on the other side of `side` of `c`: the cell plus
      `Vector2Int.up`, `down`, `left` or `right`. */
  function Across(c: Cell, side: CellEdge): (n: Cell)
    ensures Adjacent(c, n)
    ensures side == Top || side == Bottom ==> n.x == c.x
    ensures side == Left || side == Right ==> n.y == c.y
    ensures side == Top ==> n.y > c.y
    ensures side == Bottom ==> n.y < c.y
    ensures side == Right ==> n.x > c.x
    ensures side == Left ==> n.x < c.x
  {
    match side
    case Top => Plus(c, Up)
    case Bottom => Plus(c, Down)
    case Left => Plus(c, LeftDir)
    case Right => Plus(c, RightDir)
  }

  /** One side of one unit cell. */
  datatype GridEdge = GridEdge(cell: Cell, edge: CellEdge)

  /** `GridEdge.Equals`: field-by-field comparison, which is value equality. */
  predicate Equals(a: GridEdge, b: GridEdge)
    ensures Equals(a, b) <==> a == b
  {
    a.cell == b.cell && a.edge == b.edge
  }

  /** `GridEdge.GetHashCode`: the cell's hash XOR the side's ordinal. The
      cell's hash (Unity's `Vector2Int.GetHashCode`) is a parameter. */
  function HashCode(e: GridEdge, cellHash: Cell -> bv32): (h: bv32)
    ensures h ^ Ordinal(e.edge) == cellHash(e.cell)
    ensures e.edge == Top ==> h == cellHash(e.cell)
  {
    cellHash(e.cell) ^ Ordinal(e.edge)
  }

  lemma EqualEdgesHashEqual(a: GridEdge, b: GridEdge, cellHash: Cell -> bv32)
    requires Equals(a, b)
    ensures HashCode(a, cellHash) == HashCode(b, cellHash)
  {
  }

  /** The four sides of one cell never collide in a hash set. */
  lemma SidesOfCellHashApart(c: Cell, s: CellEdge, t: CellEdge, cellHash: Cell -> bv32)
    requires s != t
    ensures HashCode(GridEdge(c, s), cellHash) != HashCode(GridEdge(c, t), cellHash)
  {
    assert Ordinal(s) != Ordinal(t);
    XorInjective(cellHash(c), Ordinal(s), Ordinal(t));
  }

  /** XOR with a fixed value is injective. */
  lemma XorInjective(h: bv32, a: bv32, b: bv32)
    requires a != b
    ensures h ^ a != h ^ b
  {
  }

  // ---------------------------------------------------------------------------
  // World-space geometry
  // ---------------------------------------------------------------------------

  /** A world position (`Vector3`); the core always leaves z at 0. */
  datatype Vec3 = Vec3(x: real, y: real, z: real)

  function Midpoint(a: Vec3, b: Vec3): Vec3
  {
    Vec3((a.x + b.x) / 2.0, (a.y + b.y) / 2.0, (a.z + b.z) / 2.0)
  }

  /** The corner of `c` that is on its right side when `right` holds and
      on its top side when `up` holds: bl, br, tl or tr. */
  function Corner(c: Cell, right: bool, up: bool, cellSize: real): Vec3
  {
    Vec3(c.x as real * cellSize + (if right then cellSize else 0.0),
         c.y as real * cellSize + (if up then cellSize else 0.0), 0.0)
  }

  /** `GridEdge.ToWorldVerts`: the two world endpoints of the edge. */
  function ToWorldVerts(e: GridEdge, cellSize: real): (r: seq<Vec3>)
    ensures |r| == 2
    // the first endpoint is the bottom or left end of the side ...
    ensures r[0] == Corner(e.cell, e.edge == Right, e.edge == Top, cellSize)
    // ... and the side runs one cell along x (Top, Bottom) or along y (Left, Right)
    ensures e.edge == Top || e.edge == Bottom ==> r[1] == Vec3(r[0].x + cellSize, r[0].y, 0.0)
    ensures e.edge == Left || e.edge == Right ==> r[1] == Vec3(r[0].x, r[0].y + cellSize, 0.0)
  {
    var bl := Vec3(e.cell.x as real * cellSize, e.cell.y as real * cellSize, 0.0);
    var br := Vec3(bl.x + cellSize, bl.y, bl.z);
    var tl := Vec3(bl.x, bl.y + cellSize, bl.z);
    var tr := Vec3(bl.x + cellSize, bl.y + cellSize, bl.z);
    match e.edge
    case Top => [tl, tr]
    case Bottom => [bl, br]
    case Left => [bl, tl]
    case Right => [br, tr]
  }

  /** Moving one cell along an axis moves the world coordinate by `cellSize`. */
  lemma StepIsCellSize(a: int, cellSize: real)
    ensures (a + 1) as real * cellSize == a as real * cellSize + cellSize
  {
  }

  /** Top gives (tl, tr), Bottom (bl, br), Left (bl, tl), Right (br, tr). */
  lemma WorldVertsAreCorners(c: Cell, cellSize: real)
    ensures ToWorldVerts(GridEdge(c, Top), cellSize) == [Corner(c, false, true, cellSize), Corner(c, true, true, cellSize)]
    ensures ToWorldVerts(GridEdge(c, Bottom), cellSize) == [Corner(c, false, false, cellSize), Corner(c, true, false, cellSize)]
    ensures ToWorldVerts(GridEdge(c, Left), cellSize) == [Corner(c, false, false, cellSize), Corner(c, false, true, cellSize)]
    ensures ToWorldVerts(GridEdge(c, Right), cellSize) == [Corner(c, true, false, cellSize), Corner(c, true, true, cellSize)]
  {
    var r := ToWorldVerts(GridEdge(c, Right), cellSize);
    assert r[1] == Vec3(r[0].x, r[0].y + cellSize, 0.0);
    assert r[1] == Corner(c, true, true, cellSize);
  }

  /** The two sides of a shared boundary are the same world segment. */
  lemma SharedBoundarySameSegment(c: Cell, cellSize: real)
    ensures ToWorldVerts(GridEdge(c, Top), cellSize) == ToWorldVerts(GridEdge(Across(c, Top), Bottom), cellSize)
    ensures ToWorldVerts(GridEdge(c, Right), cellSize) == ToWorldVerts(GridEdge(Across(c, Right), Left), cellSize)
  {
    StepIsCellSize(c.x, cellSize);
    StepIsCellSize(c.y, cellSize);
    assert Across(c, Top) == Cell(c.x, c.y + 1);
    assert Across(c, Right) == Cell(c.x + 1, c.y);
    WorldVertsAreCorners(c, cellSize);
    WorldVertsAreCorners(Cell(c.x, c.y + 1), cellSize);
    WorldVertsAreCorners(Cell(c.x + 1, c.y), cellSize);
    assert Corner(Cell(c.x, c.y + 1), false, false, cellSize) == Corner(c, false, true, cellSize);
    assert Corner(Cell(c.x, c.y + 1), true, false, cellSize) == Corner(c, true, true, cellSize);
    assert Corner(Cell(c.x + 1, c.y), false, false, cellSize) == Corner(c, true, false, cellSize);
    assert Corner(Cell(c.x + 1, c.y), false, true, cellSize) == Corner(c, true, true, cellSize);
  }

  /** `GridEdge.GetEdgeMiddle`: the cell centre moved half a cell towards the side. */
  function GetEdgeMiddle(e: GridEdge, cellSize: real): (m: Vec3)
    ensures m == Midpoint(ToWorldVerts(e, cellSize)[0], ToWorldVerts(e, cellSize)[1])
  {
    var center := Vec3((e.cell.x as real + 0.5) * cellSize, (e.cell.y as real + 0.5) * cellSize, 0.0);
    var half := cellSize / 2.0;
    match e.edge
    case Top => Vec3(center.x, center.y + half, center.z)
    case Bottom => Vec3(center.x, center.y - half, center.z)
    case Left => Vec3(center.x - half, center.y, center.z)
    case Right => Vec3(center.x + half, center.y, center.z)
  }
}
