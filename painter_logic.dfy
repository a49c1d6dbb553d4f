/** The cell-set logic of the region painter (`RegionPainterLogic`): island
    detection, the add/subtract/overwrite painting update, and the rectangle
    of cells between two corners. */
module PainterLogic {
  import opened Grid
  import opened Collections
  import opened Regions
  import RegionUtility

  // ---------------------------------------------------------------------------
  // Islands
  // ---------------------------------------------------------------------------

  /** No cell of `part` has a 4-neighbour in `s` outside `part`. */
  ghost predicate ClosedWithin(part: set<Cell>, s: set<Cell>)
  {
    forall a, b {:trigger Adjacent(a, b)} :: a in part && b in s && Adjacent(a, b) ==> b in part
  }

  /** 4-connectedness: the only non-empty part of `s` that is closed under
      adjacency within `s` is `s` itself. */
  ghost predicate Connected(s: set<Cell>)
  {
    forall part {:trigger ClosedWithin(part, s)} :: part <= s && part != {} && ClosedWithin(part, s) ==> part == s
  }

  /** `islands` splits `s` into its 4-connected components: each is non-empty,
      connected and closed within `s`; they are pairwise disjoint; together
      they cover `s`. */
  ghost predicate IsIslandPartition(s: set<Cell>, islands: seq<set<Cell>>)
  {
    (forall i :: 0 <= i < |islands| ==>
       islands[i] != {} && islands[i] <= s && Connected(islands[i]) && ClosedWithin(islands[i], s)) &&
    (forall i, j :: 0 <= i < j < |islands| ==> islands[i] !! islands[j]) &&
    (forall c :: c in s ==> InSomeIsland(islands, c))
  }

  /** Some island holds `c` (stated recursively, so that the verifier unfolds
      it only on demand; `InSomeIslandIff` gives the quantified form). */
  ghost predicate InSomeIsland(islands: seq<set<Cell>>, c: Cell)
    decreases |islands|
  {
    |islands| > 0 && (c in islands[|islands| - 1] || InSomeIsland(islands[..|islands| - 1], c))
  }

  lemma {:induction false} InSomeIslandIff(islands: seq<set<Cell>>, c: Cell)
    ensures InSomeIsland(islands, c) <==> exists i :: 0 <= i < |islands| && c in islands[i]
    decreases |islands|
  {
    if |islands| > 0 {
      var init := islands[..|islands| - 1];
      InSomeIslandIff(init, c);
      if c !in islands[|islands| - 1] && exists i :: 0 <= i < |islands| && c in islands[i] {
        var i :| 0 <= i < |islands| && c in islands[i];
        assert c in init[i];
      }
    }
  }

  /** The breadth-first search tree: every cell but `start` was reached from
      an adjacent cell of smaller rank. */
  ghost predicate SpanningTree(island: set<Cell>, start: Cell, parent: map<Cell, Cell>, rank: map<Cell, nat>)
  {
    start in island && island <= rank.Keys &&
    forall c :: c in island && c != start ==>
      c in parent && parent[c] in island && Adjacent(parent[c], c) && rank[parent[c]] < rank[c]
  }

  lemma SpanningTreeConnected(island: set<Cell>, start: Cell, parent: map<Cell, Cell>, rank: map<Cell, nat>)
    requires SpanningTree(island, start, parent, rank)
    ensures Connected(island)
  {
    forall part | part <= island && part != {} && ClosedWithin(part, island)
      ensures part == island
    {
      var p :| p in part;
      DescendToStart(island, start, parent, rank, part, p);
      forall c | c in island ensures c in part {
        AscendFromStart(island, start, parent, rank, part, c);
      }
    }
  }

  lemma {:induction false} DescendToStart(island: set<Cell>, start: Cell, parent: map<Cell, Cell>,
                                          rank: map<Cell, nat>, part: set<Cell>, p: Cell)
    requires SpanningTree(island, start, parent, rank)
    requires part <= island && ClosedWithin(part, island) && p in part
    ensures start in part
    decreases rank[p]
  {
    if p != start {
      AdjacentSymmetric(parent[p], p);
      DescendToStart(island, start, parent, rank, part, parent[p]);
    }
  }

  lemma {:induction false} AscendFromStart(island: set<Cell>, start: Cell, parent: map<Cell, Cell>,
                                           rank: map<Cell, nat>, part: set<Cell>, c: Cell)
    requires SpanningTree(island, start, parent, rank)
    requires part <= island && ClosedWithin(part, island) && start in part && c in island
    ensures c in part
    decreases rank[c]
  {
    if c != start {
      AscendFromStart(island, start, parent, rank, part, parent[c]);
    }
  }

  /** The flood fill from `start` (the inner loops of `GetIslands`): a queue
      of cells whose neighbours are still to be looked at; each neighbour
      still in `remaining` joins the island and the queue. */
  method GrowIsland(remaining0: set<Cell>, start: Cell) returns (island: set<Cell>, remaining: set<Cell>)
    requires start in remaining0
    ensures start in island && island <= remaining0 && remaining == remaining0 - island
    ensures Connected(island)
    ensures forall a, n :: a in island && Adjacent(a, n) ==> n !in remaining
  {
    var queue := [start];
    island := {start};
    remaining := remaining0 - {start};
    ghost var parent: map<Cell, Cell> := map[];
    ghost var rank: map<Cell, nat> := map[start := 0];
    while |queue| > 0
      invariant island <= remaining0 && remaining == remaining0 - island
      invariant forall k :: 0 <= k < |queue| ==> queue[k] in island
      invariant SpanningTree(island, start, parent, rank)
      invariant forall a, n :: a in island && a !in queue && Adjacent(a, n) ==> n !in remaining
      decreases remaining, |queue|
    {
      ghost var queue0 := queue;
      var current := queue[0];
      queue := queue[1..];
      var island', remaining', queue', parent', rank' := VisitNeighbours(current, island, remaining, queue, start, parent, rank);
      assert remaining' == remaining0 - island';
      forall k | 0 <= k < |queue'| ensures queue'[k] in island' {
        if k < |queue| {
          assert queue'[k] == queue[k] == queue0[k + 1];
        }
      }
      forall a, n | a in island' && a !in queue' && Adjacent(a, n) ensures n !in remaining' {
        if a != current {
          assert a in island;
          assert a !in queue0 by {
            forall k | 0 <= k < |queue0| ensures queue0[k] != a {
              if k > 0 {
                assert queue0[k] == queue'[k - 1];
              }
            }
          }
        }
      }
      island, remaining, queue, parent, rank := island', remaining', queue', parent', rank';
    }
    SpanningTreeConnected(island, start, parent, rank);
  }

  /** Adding a neighbour of an island cell, with that cell as its parent,
      extends the search tree. */
  lemma SpanningTreeExtend(island: set<Cell>, start: Cell, parent: map<Cell, Cell>, rank: map<Cell, nat>,
                           current: Cell, n: Cell)
    requires SpanningTree(island, start, parent, rank)
    requires current in island && n !in island && Adjacent(current, n)
    ensures SpanningTree(island + {n}, start, parent[n := current], rank[n := rank[current] + 1])
  {
  }

  /** The scan of the four neighbours of one dequeued cell: each neighbour
      still in `remaining` joins the island and the back of the queue, its
      parent in the search tree being `current`. */
  method VisitNeighbours(current: Cell, island: set<Cell>, remaining: set<Cell>, queue: seq<Cell>,
                         ghost start: Cell, ghost parent: map<Cell, Cell>, ghost rank: map<Cell, nat>)
    returns (island': set<Cell>, remaining': set<Cell>, queue': seq<Cell>,
             ghost parent': map<Cell, Cell>, ghost rank': map<Cell, nat>)
    requires current in island && island !! remaining
    requires SpanningTree(island, start, parent, rank)
    ensures SpanningTree(island', start, parent', rank')
    ensures remaining' <= remaining && island' == island + (remaining - remaining')
    ensures island' !! remaining'
    ensures |queue| <= |queue'| && forall j :: 0 <= j < |queue| ==> queue'[j] == queue[j]
    ensures forall j :: |queue| <= j < |queue'| ==> queue'[j] in island'
    ensures forall a :: a in island' && a !in island ==> a in queue'
    ensures remaining' == remaining ==> queue' == queue
    ensures forall n :: Adjacent(current, n) ==> n !in remaining'
  {
    var neighbours := Neighbours4(current);
    island', remaining', queue', parent', rank' := island, remaining, queue, parent, rank;
    for k := 0 to 4
      invariant remaining' <= remaining && island' == island + (remaining - remaining')
      invariant island' !! remaining'
      invariant |queue| <= |queue'| && forall j :: 0 <= j < |queue| ==> queue'[j] == queue[j]
      invariant forall j :: |queue| <= j < |queue'| ==> queue'[j] in island'
      invariant forall a :: a in island' && a !in island ==> a in queue'
      invariant remaining' == remaining ==> queue' == queue
      invariant SpanningTree(island', start, parent', rank')
      invariant forall j :: 0 <= j < k ==> neighbours[j] !in remaining'
    {
      var n := neighbours[k];
      if n in remaining' {
        SpanningTreeExtend(island', start, parent', rank', current, n);
        queue' := queue' + [n];
        island' := island' + {n};
        remaining' := remaining' - {n};
        parent' := parent'[n := current];
        rank' := rank'[n := rank'[current] + 1];
      }
    }
    forall n | Adjacent(current, n) ensures n !in remaining' {
      assert n in neighbours;
    }
  }

  /** `GetIslands`: repeatedly take some remaining cell (hash order) and flood
      fill its island. */
  method GetIslands(coords: seq<Cell>) returns (islands: seq<set<Cell>>)
    ensures IsIslandPartition(Elements(coords), islands)
    ensures islands == [] <==> coords == []
  {
    var s := Elements(coords);
    islands := [];
    var remaining := s;
    while |remaining| > 0
      invariant remaining <= s
      invariant forall i :: 0 <= i < |islands| ==>
        islands[i] != {} && islands[i] <= s && islands[i] !! remaining &&
        Connected(islands[i]) && ClosedWithin(islands[i], s)
      invariant forall i, j :: 0 <= i < j < |islands| ==> islands[i] !! islands[j]
      invariant forall c :: c in s ==> c in remaining || InSomeIsland(islands, c)
      invariant s == {} ==> islands == []
      decreases |remaining|
    {
      var start :| start in remaining;
      var island, rest := GrowIsland(remaining, start);
      forall a, b | a in island && b in s && Adjacent(a, b) ensures b in island {
        InSomeIslandIff(islands, b);
        AdjacentSymmetric(a, b);
      }
      assert (islands + [island])[..|islands|] == islands;
      islands := islands + [island];
      remaining := rest;
    }
    assert remaining == {};
    if coords != [] {
      assert coords[0] in s;
    }
  }

  /** More than one island exactly when the set is non-empty and not 4-connected. */
  lemma PartitionCount(s: set<Cell>, islands: seq<set<Cell>>)
    requires IsIslandPartition(s, islands)
    ensures |islands| > 1 <==> s != {} && !Connected(s)
  {
    if |islands| > 1 {
      assert islands[0] !! islands[1];
      assert islands[1] <= s;
      assert islands[0] != s;
    } else if |islands| == 1 {
      forall c | c in s ensures c in islands[0] {
        InSomeIslandIff(islands, c);
      }
      assert islands[0] == s;
    }
  }

  /** There are never more islands than cells. */
  lemma {:induction false} IslandsAtMostCells(s: set<Cell>, islands: seq<set<Cell>>)
    requires forall i :: 0 <= i < |islands| ==> islands[i] != {} && islands[i] <= s
    requires forall i, j :: 0 <= i < j < |islands| ==> islands[i] !! islands[j]
    ensures |islands| <= |s|
    decreases |islands|
  {
    if |islands| > 0 {
      var last := islands[|islands| - 1];
      var init := islands[..|islands| - 1];
      forall i | 0 <= i < |init| ensures init[i] <= s - last {
        assert init[i] == islands[i];
        assert islands[i] !! last;
      }
      IslandsAtMostCells(s - last, init);
      assert s == (s - last) + last;
      assert |last| > 0;
    }
  }

  /** `HasMultipleIslands`: `GetIslands(coords).Count > 1`. */
  method HasMultipleIslands(coords: seq<Cell>) returns (r: bool)
    ensures r <==> Elements(coords) != {} && !Connected(Elements(coords))
  {
    var islands := GetIslands(coords);
    r := |islands| > 1;
    PartitionCount(Elements(coords), islands);
  }

  /** Cells of one island are never 4-neighbours of cells of another. */
  lemma IslandsNotAdjacent(s: set<Cell>, islands: seq<set<Cell>>, i: int, j: int, a: Cell, b: Cell)
    requires IsIslandPartition(s, islands)
    requires 0 <= i < |islands| && 0 <= j < |islands| && i != j
    requires a in islands[i] && b in islands[j]
    ensures !Adjacent(a, b)
  {
    if i < j { assert islands[i] !! islands[j]; } else { assert islands[j] !! islands[i]; }
  }

  /** Two cells with a gap between them form two islands of one cell each. */
  lemma SeparateCellsTwoIslands(islands: seq<set<Cell>>)
    requires IsIslandPartition({Cell(0, 0), Cell(2, 0)}, islands)
    ensures |islands| == 2
    ensures forall i :: 0 <= i < |islands| ==> islands[i] == {Cell(0, 0)} || islands[i] == {Cell(2, 0)}
  {
    var s := {Cell(0, 0), Cell(2, 0)};
    forall j | 0 <= j < |islands| ensures islands[j] == {Cell(0, 0)} || islands[j] == {Cell(2, 0)} {
      if Cell(0, 0) in islands[j] {
        assert ClosedWithin({Cell(0, 0)}, islands[j]);
      }
    }
    InSomeIslandIff(islands, Cell(0, 0));
    InSomeIslandIff(islands, Cell(2, 0));
    var i0 :| 0 <= i0 < |islands| && Cell(0, 0) in islands[i0];
    var i1 :| 0 <= i1 < |islands| && Cell(2, 0) in islands[i1];
    assert i0 != i1;
    IslandsAtMostCells(s, islands);
  }

  lemma BlockConnected()
    ensures Connected(RegionUtility.Block())
  {
    var s := RegionUtility.Block();
    forall part | part <= s && part != {} && ClosedWithin(part, s) ensures part == s {
      var p :| p in part;
      assert Adjacent(Cell(0, 0), Cell(1, 0)) && Adjacent(Cell(1, 0), Cell(0, 0));
      assert Adjacent(Cell(1, 0), Cell(1, 1)) && Adjacent(Cell(1, 1), Cell(1, 0));
      assert Adjacent(Cell(1, 1), Cell(0, 1)) && Adjacent(Cell(0, 1), Cell(1, 1));
      assert Adjacent(Cell(0, 1), Cell(0, 0)) && Adjacent(Cell(0, 0), Cell(0, 1));
      assert Cell(0, 0) in part;
    }
  }

  /** The 2x2 block is a single island of four cells. */
  lemma BlockIsOneIsland(islands: seq<set<Cell>>)
    requires IsIslandPartition(RegionUtility.Block(), islands)
    ensures |islands| == 1 && islands[0] == RegionUtility.Block()
  {
    BlockConnected();
    PartitionCount(RegionUtility.Block(), islands);
    InSomeIslandIff(islands, Cell(0, 0));
  }

  // ---------------------------------------------------------------------------
  // Painting update
  // ---------------------------------------------------------------------------

  /** The cell sets of the scene's regions, in list order, and the target
      region's working set `contained`. */
  datatype PaintState = PaintState(owners: seq<set<Cell>>, contained: set<Cell>)

  /** `coord` is held by a region other than the target (index `target`). */
  predicate TakenByOther(owners: seq<set<Cell>>, target: int, coord: Cell)
  {
    FirstOwner(owners, coord) < |owners| && FirstOwner(owners, coord) != target
  }

  /** One valid coordinate of `ApplyToRegion`. The target's own entry in
      `owners` is its cell set from before the call: the source writes the
      target region only at the end. */
  function PaintStep(st: PaintState, target: int, coord: Cell, addMode: bool, overwrite: bool): (r: PaintState)
    ensures |r.owners| == |st.owners|
    ensures r.contained - {coord} == st.contained - {coord}
    ensures !addMode ==> coord !in r.contained && r.owners == st.owners
    ensures addMode && (overwrite || !TakenByOther(st.owners, target, coord)) ==> coord in r.contained
    ensures addMode && !overwrite && TakenByOther(st.owners, target, coord) ==> r == st
    ensures forall k :: 0 <= k < |st.owners| ==> r.owners[k] == st.owners[k] || r.owners[k] == st.owners[k] - {coord}
    ensures 0 <= target < |st.owners| ==> r.owners[target] == st.owners[target]
  {
    if !addMode then st.(contained := st.contained - {coord})
    else if TakenByOther(st.owners, target, coord) then
      if overwrite then
        var k := FirstOwner(st.owners, coord);
        PaintState(st.owners[k := st.owners[k] - {coord}], st.contained + {coord})
      else st
    else st.(contained := st.contained + {coord})
  }

  /** The coordinates in order, invalid ones skipped. */
  function Paint(st: PaintState, target: int, coords: seq<Cell>, addMode: bool, overwrite: bool,
                 isValidCell: Cell -> bool): (p: PaintState)
    ensures |p.owners| == |st.owners|
    decreases |coords|
  {
    if coords == [] then st
    else
      var prev := Paint(st, target, coords[..|coords| - 1], addMode, overwrite, isValidCell);
      var coord := coords[|coords| - 1];
      if isValidCell(coord) then PaintStep(prev, target, coord, addMode, overwrite) else prev
  }

  /** Painting one more coordinate is one more step, or none when it is invalid. */
  lemma PaintSnoc(st: PaintState, target: int, coords: seq<Cell>, i: int, addMode: bool, overwrite: bool,
                  isValidCell: Cell -> bool)
    requires 0 <= i < |coords|
    ensures var prev := Paint(st, target, coords[..i], addMode, overwrite, isValidCell);
      Paint(st, target, coords[..i + 1], addMode, overwrite, isValidCell) ==
        if isValidCell(coords[i]) then PaintStep(prev, target, coords[i], addMode, overwrite) else prev
  {
    assert coords[..i + 1][..i] == coords[..i];
  }

  function ValidCoords(coords: seq<Cell>, isValidCell: Cell -> bool): set<Cell>
  {
    set c | c in coords && isValidCell(c)
  }

  /** One more coordinate keeps every valid one seen so far, and adds the
      new one when it is valid. */
  lemma ValidCoordsGrow(coords: seq<Cell>, i: int, isValidCell: Cell -> bool)
    requires 0 <= i < |coords|
    ensures ValidCoords(coords[..i], isValidCell) <= ValidCoords(coords[..i + 1], isValidCell)
    ensures isValidCell(coords[i]) ==> coords[i] in ValidCoords(coords[..i + 1], isValidCell)
  {
    assert coords[..i + 1] == coords[..i] + [coords[i]];
  }

  /** Regions other than the target only ever lose cells; the target's entry
      and the number of regions never change. */
  lemma {:induction false} PaintOnlyShrinksOthers(st: PaintState, target: int, coords: seq<Cell>,
                                                  addMode: bool, overwrite: bool, isValidCell: Cell -> bool)
    ensures var p := Paint(st, target, coords, addMode, overwrite, isValidCell);
      (forall k :: 0 <= k < |st.owners| ==> p.owners[k] <= st.owners[k]) &&
      (0 <= target < |st.owners| ==> p.owners[target] == st.owners[target])
    decreases |coords|
  {
    if coords != [] {
      PaintOnlyShrinksOthers(st, target, coords[..|coords| - 1], addMode, overwrite, isValidCell);
    }
  }

  /** Subtract mode removes every valid coordinate and touches no other region. */
  lemma {:induction false} SubtractRemovesCoords(st: PaintState, target: int, coords: seq<Cell>, isValidCell: Cell -> bool)
    ensures Paint(st, target, coords, false, false, isValidCell) ==
      PaintState(st.owners, st.contained - ValidCoords(coords, isValidCell))
    ensures Paint(st, target, coords, false, true, isValidCell) ==
      PaintState(st.owners, st.contained - ValidCoords(coords, isValidCell))
    decreases |coords|
  {
    if coords != [] {
      var init := coords[..|coords| - 1];
      SubtractRemovesCoords(st, target, init, isValidCell);
      assert ValidCoords(coords, isValidCell) ==
        ValidCoords(init, isValidCell) + (if isValidCell(coords[|coords| - 1]) then {coords[|coords| - 1]} else {}) by {
        assert coords == init + [coords[|coords| - 1]];
      }
    }
  }

  /** Add mode without overwrite adds the valid coordinates that no other
      region holds, and touches no other region. */
  lemma {:induction false} AddSkipsTakenCoords(st: PaintState, target: int, coords: seq<Cell>, isValidCell: Cell -> bool)
    ensures Paint(st, target, coords, true, false, isValidCell) ==
      PaintState(st.owners, st.contained + (set c | c in coords && isValidCell(c) && !TakenByOther(st.owners, target, c)))
    decreases |coords|
  {
    if coords != [] {
      var init := coords[..|coords| - 1];
      AddSkipsTakenCoords(st, target, init, isValidCell);
      assert coords == init + [coords[|coords| - 1]];
    }
  }

  /** Add mode with overwrite adds every valid coordinate to the target. */
  lemma {:induction false} OverwriteAddsAllCoords(st: PaintState, target: int, coords: seq<Cell>, isValidCell: Cell -> bool)
    ensures Paint(st, target, coords, true, true, isValidCell).contained ==
      st.contained + ValidCoords(coords, isValidCell)
    decreases |coords|
  {
    if coords != [] {
      var init := coords[..|coords| - 1];
      OverwriteAddsAllCoords(st, target, init, isValidCell);
      assert coords == init + [coords[|coords| - 1]];
    }
  }

  ghost predicate PairwiseDisjoint(owners: seq<set<Cell>>)
  {
    forall i, j :: 0 <= i < |owners| && 0 <= j < |owners| && i != j ==> owners[i] !! owners[j]
  }

  /** When no cell is held by two regions, overwrite takes every valid
      coordinate away from the other regions; the regions stay disjoint. */
  lemma {:induction false} OverwriteTakesFromOthers(st: PaintState, target: int, coords: seq<Cell>, isValidCell: Cell -> bool)
    requires PairwiseDisjoint(st.owners)
    ensures var p := Paint(st, target, coords, true, true, isValidCell);
      |p.owners| == |st.owners| && PairwiseDisjoint(p.owners) &&
      forall k :: 0 <= k < |st.owners| ==>
        p.owners[k] == if k == target then st.owners[k] else st.owners[k] - ValidCoords(coords, isValidCell)
    decreases |coords|
  {
    if coords != [] {
      var init := coords[..|coords| - 1];
      var c := coords[|coords| - 1];
      OverwriteTakesFromOthers(st, target, init, isValidCell);
      assert coords == init + [c];
      var prev := Paint(st, target, init, true, true, isValidCell);
      assert ValidCoords(coords, isValidCell) ==
        ValidCoords(init, isValidCell) + (if isValidCell(c) then {c} else {});
      if isValidCell(c) && TakenByOther(prev.owners, target, c) {
        var k := FirstOwner(prev.owners, c);
        forall j | 0 <= j < |st.owners| && j != target && j != k ensures c !in st.owners[j] {
          assert c in st.owners[k];
        }
      }
    }
  }

  /** Position of `r` in the list, or -1. */
  function IndexOf(regions: seq<RegionData>, r: RegionData): (k: int)
    ensures -1 <= k < |regions|
    ensures k >= 0 ==> regions[k] == r
    ensures k == -1 <==> r !in regions
  {
    if regions == [] then -1
    else if regions[0] == r then 0
    else
      var k := IndexOf(regions[1..], r);
      if k == -1 then -1 else k + 1
  }

  /** The search of `ApplyToRegion` for the first region holding `coord`;
      `k` is that region's index, or `|regions|` when there is none. */
  method FindExisting(regions: seq<RegionData>, coord: Cell) returns (existing: RegionData?, ghost k: nat)
    ensures existing == FirstContaining(regions, coord)
    ensures k == FirstOwner(OwnerSets(regions), coord)
    ensures existing == null <==> k == |regions|
    ensures existing != null ==> k < |regions| && existing == regions[k]
  {
    existing := null;
    var i := 0;
    while i < |regions|
      invariant 0 <= i <= |regions|
      invariant forall j :: 0 <= j < i ==> !regions[j].ContainsCell(coord)
    {
      if regions[i].ContainsCell(coord) {
        existing := regions[i];
        break;
      }
      i := i + 1;
    }
    k := FirstOwner(OwnerSets(regions), coord);
    assert existing != null ==> k == i;
  }

  /** Store a cell set into a region together with its freshly computed
      perimeter: the overwrite branch and the end of `ApplyToRegion`. */
  method StoreCells(region: RegionData, cells: set<Cell>)
    modifies region`containedCoords, region`perimeterEdges
    ensures Elements(region.containedCoords) == cells
    ensures region.PerimeterIsCurrent()
  {
    var perimeter := RegionUtility.CalculatePerimeterEdges(cells);
    var cs := Enumerate(cells);
    var es := Enumerate(perimeter);
    region.SetCoords(cs, es);
  }

  /** The overwrite branch of `ApplyToRegion`: take `coord` away from
      `existing`, the region at index `k`, and store its remaining cells with
      their perimeter. No other region changes. */
  method TakeCell(existing: RegionData, coord: Cell, regions: seq<RegionData>, ghost k: int)
    requires Distinct(regions) && 0 <= k < |regions| && regions[k] == existing
    modifies existing`containedCoords, existing`perimeterEdges
    ensures OwnerSets(regions) == old(OwnerSets(regions))[k := old(OwnerSets(regions))[k] - {coord}]
    ensures existing.PerimeterIsCurrent()
  {
    ghost var before := OwnerSets(regions);
    StoreCells(existing, Elements(existing.containedCoords) - {coord});
    forall j | 0 <= j < |regions| ensures OwnerSets(regions)[j] == before[k := before[k] - {coord}][j] {
      if j != k {
        assert regions[j] != existing;
      }
    }
  }

  /** One coordinate of the loop of `ApplyToRegion`, already known to be
      valid: subtract it, or add it. */
  method PaintCell(region: RegionData, coord: Cell, addMode: bool, overwrite: bool,
                   regions: seq<RegionData>, contained: set<Cell>) returns (contained': set<Cell>)
    requires Distinct(regions)
    modifies regions`containedCoords, regions`perimeterEdges
    ensures PaintState(OwnerSets(regions), contained') ==
      PaintStep(PaintState(old(OwnerSets(regions)), contained), IndexOf(regions, region), coord, addMode, overwrite)
    ensures region.containedCoords == old(region.containedCoords) && region.perimeterEdges == old(region.perimeterEdges)
    ensures forall k :: 0 <= k < |regions| ==>
      (regions[k].containedCoords == old(regions[k].containedCoords) &&
       regions[k].perimeterEdges == old(regions[k].perimeterEdges)) ||
      (regions[k].PerimeterIsCurrent() && coord in old(OwnerSets(regions))[k])
  {
    if addMode {
      contained' := AddCell(region, coord, overwrite, regions, contained);
    } else {
      contained' := contained - {coord};
    }
  }

  /** The add branch of the loop of `ApplyToRegion`: add `coord`, first
      taking it from the region that holds it when `overwrite` is set, or
      skip it when that region is not the target and `overwrite` is not set. */
  method AddCell(region: RegionData, coord: Cell, overwrite: bool,
                 regions: seq<RegionData>, contained: set<Cell>) returns (contained': set<Cell>)
    requires Distinct(regions)
    modifies regions`containedCoords, regions`perimeterEdges
    ensures PaintState(OwnerSets(regions), contained') ==
      PaintStep(PaintState(old(OwnerSets(regions)), contained), IndexOf(regions, region), coord, true, overwrite)
    ensures region.containedCoords == old(region.containedCoords) && region.perimeterEdges == old(region.perimeterEdges)
    ensures forall k :: 0 <= k < |regions| ==>
      (regions[k].containedCoords == old(regions[k].containedCoords) &&
       regions[k].perimeterEdges == old(regions[k].perimeterEdges)) ||
      (regions[k].PerimeterIsCurrent() && coord in old(OwnerSets(regions))[k])
  {
    ghost var target := IndexOf(regions, region);
    ghost var before := OwnerSets(regions);
    var existing, k := FindExisting(regions, coord);
    if existing == null || existing == region {
      assert !TakenByOther(before, target, coord);
      contained' := contained + {coord};
    } else {
      assert TakenByOther(before, target, coord);
      if overwrite {
        TakeCell(existing, coord, regions, k);
        forall j | 0 <= j < |regions| && regions[j] != existing
          ensures regions[j].containedCoords == old(regions[j].containedCoords)
          ensures regions[j].perimeterEdges == old(regions[j].perimeterEdges)
        {
        }
        contained' := contained + {coord};
      } else {
        contained' := contained;
      }
    }
  }

  /** The loop of `ApplyToRegion`: paint the coordinates into a working
      copy of the target's cells; other regions may lose cells to overwrite. */
  method PaintCoords(region: RegionData, coords: seq<Cell>, addMode: bool, overwrite: bool,
                     regions: seq<RegionData>, isValidCell: Cell -> bool) returns (contained: set<Cell>)
    requires Distinct(regions)
    modifies regions`containedCoords, regions`perimeterEdges
    ensures PaintState(OwnerSets(regions), contained) ==
      Paint(PaintState(old(OwnerSets(regions)), old(Elements(region.containedCoords))),
            IndexOf(regions, region), coords, addMode, overwrite, isValidCell)
    ensures region.containedCoords == old(region.containedCoords) && region.perimeterEdges == old(region.perimeterEdges)
    ensures forall k :: 0 <= k < |regions| ==>
      (regions[k].containedCoords == old(regions[k].containedCoords) &&
       regions[k].perimeterEdges == old(regions[k].perimeterEdges)) ||
      (regions[k].PerimeterIsCurrent() && old(OwnerSets(regions))[k] * ValidCoords(coords, isValidCell) != {})
  {
    ghost var target := IndexOf(regions, region);
    ghost var init := PaintState(OwnerSets(regions), Elements(region.containedCoords));
    ghost var st := init;
    contained := Elements(region.containedCoords);
    var i := 0;
    while i < |coords|
      invariant 0 <= i <= |coords|
      invariant st == Paint(init, target, coords[..i], addMode, overwrite, isValidCell)
      invariant st.owners == OwnerSets(regions) && st.contained == contained
      invariant region.containedCoords == old(region.containedCoords) && region.perimeterEdges == old(region.perimeterEdges)
      invariant forall k :: 0 <= k < |regions| ==>
        (regions[k].containedCoords == old(regions[k].containedCoords) &&
         regions[k].perimeterEdges == old(regions[k].perimeterEdges)) ||
        (regions[k].PerimeterIsCurrent() && init.owners[k] * ValidCoords(coords[..i], isValidCell) != {})
    {
      var coord := coords[i];
      PaintSnoc(init, target, coords, i, addMode, overwrite, isValidCell);
      if isValidCell(coord) {
        ghost var pre := st.owners;
        label Step:
        contained := PaintCell(region, coord, addMode, overwrite, regions, contained);
        forall k | 0 <= k < |regions|
          ensures (regions[k].containedCoords == old(regions[k].containedCoords) &&
                   regions[k].perimeterEdges == old(regions[k].perimeterEdges)) ||
                  (regions[k].PerimeterIsCurrent() && init.owners[k] * ValidCoords(coords[..i + 1], isValidCell) != {})
        {
          ValidCoordsGrow(coords, i, isValidCell);
          if !(regions[k].containedCoords == old@Step(regions[k].containedCoords) &&
               regions[k].perimeterEdges == old@Step(regions[k].perimeterEdges)) {
            PaintOnlyShrinksOthers(init, target, coords[..i], addMode, overwrite, isValidCell);
            assert coord in pre[k];
            assert coord in init.owners[k] * ValidCoords(coords[..i + 1], isValidCell);
          }
        }
        st := PaintStep(st, target, coord, addMode, overwrite);
      } else {
        ValidCoordsGrow(coords, i, isValidCell);
      }
      i := i + 1;
    }
    assert coords[..|coords|] == coords;
  }

  /** `ApplyToRegion`: paint `coords` into `region` in add or subtract mode,
      then store the new cells and their perimeter. The scene's regions are
      `regions`, the grid's bounds check is `isValidCell`. Only cell lists
      and perimeter lists change. */
  method ApplyToRegion(region: RegionData, coords: seq<Cell>, addMode: bool, overwrite: bool,
                       regions: seq<RegionData>, isValidCell: Cell -> bool)
    requires Distinct(regions)
    modifies region`containedCoords, region`perimeterEdges, regions`containedCoords, regions`perimeterEdges
    ensures var p := Paint(PaintState(old(OwnerSets(regions)), old(Elements(region.containedCoords))),
                           IndexOf(regions, region), coords, addMode, overwrite, isValidCell);
      Elements(region.containedCoords) == p.contained &&
      forall k :: 0 <= k < |regions| && regions[k] != region ==> Elements(regions[k].containedCoords) == p.owners[k]
    ensures region.PerimeterIsCurrent()
    ensures forall k :: 0 <= k < |regions| ==>
      (regions[k].containedCoords == old(regions[k].containedCoords) &&
       regions[k].perimeterEdges == old(regions[k].perimeterEdges)) ||
      (regions[k].PerimeterIsCurrent() &&
       (regions[k] == region || old(OwnerSets(regions))[k] * ValidCoords(coords, isValidCell) != {}))
  {
    var contained := PaintCoords(region, coords, addMode, overwrite, regions, isValidCell);
    ghost var painted := OwnerSets(regions);
    StoreCells(region, contained);
    forall k | 0 <= k < |regions| && regions[k] != region
      ensures Elements(regions[k].containedCoords) == painted[k]
    {
    }
  }

  // ---------------------------------------------------------------------------
  // Rectangles
  // ---------------------------------------------------------------------------

  /** `RectInt` with a non-negative size: columns `x .. x + width - 1`, rows
      `y .. y + height - 1`. */
  datatype RectInt = RectInt(x: int, y: int, width: int, height: int)

  function Min(a: int, b: int): int { if a <= b then a else b }
  function Max(a: int, b: int): int { if a <= b then b else a }

  /** `c` lies between the corners `a` and `b`, both inclusive. */
  predicate Between(a: Cell, b: Cell, c: Cell)
  {
    Min(a.x, b.x) <= c.x <= Max(a.x, b.x) && Min(a.y, b.y) <= c.y <= Max(a.y, b.y)
  }

  /** `MakeRect`: the smallest rectangle holding both corners; width and
      height are inclusive. */
  function MakeRect(a: Cell, b: Cell): (r: RectInt)
    ensures r.width >= 1 && r.height >= 1
    ensures r.x <= a.x < r.x + r.width && r.x <= b.x < r.x + r.width
    ensures r.y <= a.y < r.y + r.height && r.y <= b.y < r.y + r.height
    ensures (r.x == a.x || r.x == b.x) && (r.x + r.width - 1 == a.x || r.x + r.width - 1 == b.x)
    ensures (r.y == a.y || r.y == b.y) && (r.y + r.height - 1 == a.y || r.y + r.height - 1 == b.y)
  {
    var xMin := Min(a.x, b.x);
    var yMin := Min(a.y, b.y);
    var xMax := Max(a.x, b.x);
    var yMax := Max(a.y, b.y);
    RectInt(xMin, yMin, xMax - xMin + 1, yMax - yMin + 1)
  }

  /** The cells of `HandleRectMode` for a drag from `a` to `b`: the rectangle
      column by column, each column bottom to top. */
  method RectCells(a: Cell, b: Cell) returns (coords: seq<Cell>)
    ensures |coords| == MakeRect(a, b).width * MakeRect(a, b).height
    ensures Distinct(coords)
    ensures forall c :: c in coords <==> Between(a, b, c)
  {
    var rect := MakeRect(a, b);
    coords := [];
    for x := rect.x to rect.x + rect.width
      invariant |coords| == (x - rect.x) * rect.height
      invariant Distinct(coords)
      invariant forall c :: c in coords <==> rect.x <= c.x < x && rect.y <= c.y < rect.y + rect.height
    {
      for y := rect.y to rect.y + rect.height
        invariant |coords| == (x - rect.x) * rect.height + (y - rect.y)
        invariant Distinct(coords)
        invariant forall c :: c in coords <==>
          (rect.x <= c.x < x && rect.y <= c.y < rect.y + rect.height) || (c.x == x && rect.y <= c.y < y)
      {
        coords := coords + [Cell(x, y)];
      }
      assert (x + 1 - rect.x) * rect.height == (x - rect.x) * rect.height + rect.height;
    }
  }
}
