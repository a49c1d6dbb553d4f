/** Perimeter derivation for a cell set (`RegionUtility`). */
module RegionUtility {
  import opened Grid
  import opened Collections

  // ---------------------------------------------------------------------------
  // Perimeter edges
  // ---------------------------------------------------------------------------

  /** `e` is a side of a cell of `cells` whose neighbour across that side is
      not in `cells`. */
  predicate OnPerimeter(cells: set<Cell>, e: GridEdge)
  {
    e.cell in cells && Across(e.cell, e.edge) !in cells
  }

  /** The side `side` of every cell of `cells` that has no neighbour there. */
  function OpenSides(cells: set<Cell>, side: CellEdge): set<GridEdge>
  {
    set c | c in cells && Across(c, side) !in cells :: GridEdge(c, side)
  }

  /** Reference definition of the perimeter: the open sides, side by side. */
  function PerimeterEdgesOf(cells: set<Cell>): (edges: set<GridEdge>)
    ensures forall e :: e in edges <==> OnPerimeter(cells, e)
  {
    OpenSides(cells, Top) + OpenSides(cells, Bottom) + OpenSides(cells, Left) + OpenSides(cells, Right)
  }

  /** `RegionUtility.CalculatePerimeterEdges`: visit each cell once (in hash
      order) and add each of its four sides whose neighbour is missing. */
  method CalculatePerimeterEdges(cells: set<Cell>) returns (edges: set<GridEdge>)
    ensures edges == PerimeterEdgesOf(cells)
  {
    edges := {};
    var rest := cells;
    while rest != {}
      invariant rest <= cells
      invariant forall e :: e in edges <==> e.cell !in rest && OnPerimeter(cells, e)
      decreases |rest|
    {
      var cell :| cell in rest;
      if Plus(cell, Up) !in cells { edges := edges + {GridEdge(cell, Top)}; }
      if Plus(cell, Down) !in cells { edges := edges + {GridEdge(cell, Bottom)}; }
      if Plus(cell, LeftDir) !in cells { edges := edges + {GridEdge(cell, Left)}; }
      if Plus(cell, RightDir) !in cells { edges := edges + {GridEdge(cell, Right)}; }
      rest := rest - {cell};
    }
  }

  lemma EmptyCellsHaveNoPerimeter()
    ensures PerimeterEdgesOf({}) == {}
  {
  }

  /** All four sides of every cell. */
  function SidesOf(cells: set<Cell>, side: CellEdge): set<GridEdge>
  {
    set c | c in cells :: GridEdge(c, side)
  }

  lemma {:induction false} SidesOfSize(cells: set<Cell>, side: CellEdge)
    ensures |SidesOf(cells, side)| == |cells|
    decreases |cells|
  {
    if cells != {} {
      var c :| c in cells;
      var rest := cells - {c};
      SidesOfSize(rest, side);
      assert SidesOf(cells, side) == SidesOf(rest, side) + {GridEdge(c, side)};
      assert GridEdge(c, side) !in SidesOf(rest, side);
    }
  }

  /** Each cell contributes at most its four sides. */
  lemma PerimeterAtMostFourPerCell(cells: set<Cell>)
    ensures |PerimeterEdgesOf(cells)| <= 4 * |cells|
  {
    var all := SidesOf(cells, Top) + SidesOf(cells, Bottom) + SidesOf(cells, Left) + SidesOf(cells, Right);
    SidesOfSize(cells, Top);
    SidesOfSize(cells, Bottom);
    SidesOfSize(cells, Left);
    SidesOfSize(cells, Right);
    assert PerimeterEdgesOf(cells) <= all;
    SubsetSize(PerimeterEdgesOf(cells), all);
  }

  lemma {:induction false} SubsetSize<T>(a: set<T>, b: set<T>)
    requires a <= b
    ensures |a| <= |b|
    decreases |a|
  {
    if a != {} {
      var x :| x in a;
      SubsetSize(a - {x}, b - {x});
    }
  }

  /** A lone cell contributes all four of its sides. */
  lemma LoneCellPerimeter(c: Cell)
    ensures PerimeterEdgesOf({c}) == {GridEdge(c, Top), GridEdge(c, Bottom), GridEdge(c, Left), GridEdge(c, Right)}
    ensures |PerimeterEdgesOf({c})| == 4
  {
    LoneOpenSide(c, Top);
    LoneOpenSide(c, Bottom);
    LoneOpenSide(c, Left);
    LoneOpenSide(c, Right);
    OpenSidesApart({c}, Top, Bottom);
    OpenSidesApart({c}, Top, Left);
    OpenSidesApart({c}, Top, Right);
    OpenSidesApart({c}, Bottom, Left);
    OpenSidesApart({c}, Bottom, Right);
    OpenSidesApart({c}, Left, Right);
    DisjointUnionSize(OpenSides({c}, Top), OpenSides({c}, Bottom), OpenSides({c}, Left), OpenSides({c}, Right));
  }

  /** A lone cell has no neighbour, so each of its sides is open. */
  lemma LoneOpenSide(c: Cell, side: CellEdge)
    ensures OpenSides({c}, side) == {GridEdge(c, side)}
  {
    assert Across(c, side) != c;
  }

  /** The 2x2 block with corners (0, 0) and (1, 1). */
  function Block(): set<Cell>
  {
    {Cell(0, 0), Cell(1, 0), Cell(0, 1), Cell(1, 1)}
  }

  /** A 2x2 block has exactly eight perimeter edges, two per side of the square,
      and none between two cells of the block. */
  lemma BlockPerimeter()
    ensures PerimeterEdgesOf(Block()) ==
        {GridEdge(Cell(0, 1), Top), GridEdge(Cell(1, 1), Top),
         GridEdge(Cell(0, 0), Bottom), GridEdge(Cell(1, 0), Bottom),
         GridEdge(Cell(0, 0), Left), GridEdge(Cell(0, 1), Left),
         GridEdge(Cell(1, 0), Right), GridEdge(Cell(1, 1), Right)}
    ensures |PerimeterEdgesOf(Block())| == 8
  {
    BlockTopAndBottom();
    BlockLeftAndRight();
    BlockPerimeterSize();
  }

  lemma BlockPerimeterSize()
    requires OpenSides(Block(), Top) == {GridEdge(Cell(0, 1), Top), GridEdge(Cell(1, 1), Top)}
    requires OpenSides(Block(), Bottom) == {GridEdge(Cell(0, 0), Bottom), GridEdge(Cell(1, 0), Bottom)}
    requires OpenSides(Block(), Left) == {GridEdge(Cell(0, 0), Left), GridEdge(Cell(0, 1), Left)}
    requires OpenSides(Block(), Right) == {GridEdge(Cell(1, 0), Right), GridEdge(Cell(1, 1), Right)}
    ensures |PerimeterEdgesOf(Block())| == 8
  {
    var top := OpenSides(Block(), Top);
    var bottom := OpenSides(Block(), Bottom);
    var left := OpenSides(Block(), Left);
    var right := OpenSides(Block(), Right);
    OpenSidesApart(Block(), Top, Bottom);
    OpenSidesApart(Block(), Top, Left);
    OpenSidesApart(Block(), Top, Right);
    OpenSidesApart(Block(), Bottom, Left);
    OpenSidesApart(Block(), Bottom, Right);
    OpenSidesApart(Block(), Left, Right);
    DisjointUnionSize(top, bottom, left, right);
  }

  /** Open sides facing different ways are different edges. */
  lemma OpenSidesApart(cells: set<Cell>, s: CellEdge, t: CellEdge)
    requires s != t
    ensures OpenSides(cells, s) !! OpenSides(cells, t)
  {
  }

  lemma DisjointUnionSize<T>(a: set<T>, b: set<T>, c: set<T>, d: set<T>)
    requires a !! b && a !! c && a !! d && b !! c && b !! d && c !! d
    ensures |a + b + c + d| == |a| + |b| + |c| + |d|
  {
    assert (a + b) !! c;
    assert (a + b + c) !! d;
  }

  lemma BlockTopAndBottom()
    ensures OpenSides(Block(), Top) == {GridEdge(Cell(0, 1), Top), GridEdge(Cell(1, 1), Top)}
    ensures OpenSides(Block(), Bottom) == {GridEdge(Cell(0, 0), Bottom), GridEdge(Cell(1, 0), Bottom)}
  {
    BlockOpenSide(Top, Cell(0, 1), Cell(1, 1));
    BlockOpenSide(Bottom, Cell(0, 0), Cell(1, 0));
  }

  lemma BlockLeftAndRight()
    ensures OpenSides(Block(), Left) == {GridEdge(Cell(0, 0), Left), GridEdge(Cell(0, 1), Left)}
    ensures OpenSides(Block(), Right) == {GridEdge(Cell(1, 0), Right), GridEdge(Cell(1, 1), Right)}
  {
    BlockOpenSide(Left, Cell(0, 0), Cell(0, 1));
    BlockOpenSide(Right, Cell(1, 0), Cell(1, 1));
  }

  /** The cells `a` and `b` of the block are the two whose `side` is open. */
  lemma BlockOpenSide(side: CellEdge, a: Cell, b: Cell)
    requires a in Block() && b in Block() && a != b
    requires Across(a, side) !in Block() && Across(b, side) !in Block()
    requires forall c :: c in Block() && c != a && c != b ==> Across(c, side) in Block()
    ensures OpenSides(Block(), side) == {GridEdge(a, side), GridEdge(b, side)}
  {
  }

  // ---------------------------------------------------------------------------
  // Perimeter cells
  // ---------------------------------------------------------------------------

  /** Some 4-neighbour of `c` is a valid cell outside `contained`. */
  ghost predicate BordersOutside(contained: set<Cell>, isValidCell: (int, int) -> bool, c: Cell)
  {
    exists n :: Adjacent(c, n) && n !in contained && isValidCell(n.x, n.y)
  }

  /** `RegionUtility.CalculatePerimeter`: the contained cells (in hash order)
      that have a valid neighbour outside the set; the inner scan stops at the
      first such neighbour, so each cell is listed at most once. */
  method CalculatePerimeter(contained: set<Cell>, isValidCell: (int, int) -> bool)
    returns (perimeter: seq<Cell>)
    ensures forall c :: c in perimeter <==> c in contained && BordersOutside(contained, isValidCell, c)
    ensures Distinct(perimeter)
  {
    perimeter := [];
    var rest := contained;
    while rest != {}
      invariant rest <= contained
      invariant forall c :: c in perimeter <==> c in contained && c !in rest && BordersOutside(contained, isValidCell, c)
      invariant Distinct(perimeter)
      decreases |rest|
    {
      var coord :| coord in rest;
      var neighbors := Neighbours4(coord);
      var i := 0;
      while i < 4
        invariant 0 <= i <= 4
        invariant forall j :: 0 <= j < i ==> neighbors[j] in contained || !isValidCell(neighbors[j].x, neighbors[j].y)
        invariant coord !in perimeter
      {
        var n := neighbors[i];
        if n !in contained && isValidCell(n.x, n.y) {
          perimeter := perimeter + [coord];
          break;
        }
        i := i + 1;
      }
      if coord !in perimeter {
        forall n | Adjacent(coord, n) ensures n in contained || !isValidCell(n.x, n.y) {
          assert n in neighbors;
        }
      }
      rest := rest - {coord};
    }
  }
}
