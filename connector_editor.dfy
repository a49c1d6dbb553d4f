/** The connector logic of the region connector editor window
    (`RegionConnectorWindow`): neighbour lookup across a side, resolution of
    the opposite region and edge, guarded creation, the Door/Window cycle at
    an edge, and the rebuild pass over all connectors. */
module ConnectorEditor {
  import opened Grid
  import opened Collections
  import opened Regions
  import opened Connectors
  import opened ConnectorContainers

  // ---------------------------------------------------------------------------
  // Across a side
  // ---------------------------------------------------------------------------

  /** `GetNeighborCell`: the cell on the other side of the edge. */
  function GetNeighborCell(e: GridEdge): (n: Cell)
    ensures n == Across(e.cell, e.edge)
  {
    match e.edge
    case Top => Cell(e.cell.x, e.cell.y + 1)
    case Bottom => Cell(e.cell.x, e.cell.y - 1)
    case Right => Cell(e.cell.x + 1, e.cell.y)
    case Left => Cell(e.cell.x - 1, e.cell.y)
  }

  /** `Opposite`: the side facing back. */
  function Opposite(side: CellEdge): (o: CellEdge)
    ensures o != side
    ensures (side == Top || side == Bottom) <==> (o == Top || o == Bottom)
  {
    match side
    case Top => Bottom
    case Bottom => Top
    case Right => Left
    case Left => Right
  }

  /** `Opposite` swaps Top with Bottom and Left with Right. */
  lemma OppositeInvolution(side: CellEdge)
    ensures Opposite(Opposite(side)) == side
  {
  }

  /** Crossing a side and then the opposite side leads back. */
  lemma NeighbourRoundTrip(e: GridEdge)
    ensures GetNeighborCell(GridEdge(GetNeighborCell(e), Opposite(e.edge))) == e.cell
  {
  }

  /** The edge seen from the other side is the same world segment. */
  lemma OppositeEdgeSameSegment(e: GridEdge, cellSize: real)
    ensures ToWorldVerts(GridEdge(GetNeighborCell(e), Opposite(e.edge)), cellSize) == ToWorldVerts(e, cellSize)
  {
    var n := GetNeighborCell(e);
    match e.edge
    case Top => SharedBoundarySameSegment(e.cell, cellSize);
    case Right => SharedBoundarySameSegment(e.cell, cellSize);
    case Bottom =>
      SharedBoundarySameSegment(n, cellSize);
      assert Across(n, Top) == e.cell;
    case Left =>
      SharedBoundarySameSegment(n, cellSize);
      assert Across(n, Right) == e.cell;
  }

  // ---------------------------------------------------------------------------
  // The opposite region
  // ---------------------------------------------------------------------------

  /** The edge of the neighbour cell that faces back across `e`. */
  function FacingEdge(e: GridEdge): GridEdge
  {
    GridEdge(GetNeighborCell(e), Opposite(e.edge))
  }

  /** What `GetOppositeRegionData` finds: the first region holding the
      neighbour cell, and the facing edge when it is on that region's
      perimeter list. */
  function ResolveOpposite(regions: seq<RegionData>, edgeA: GridEdge): (r: (RegionData?, Option<GridEdge>))
    reads regions
    ensures r.0 == FirstContaining(regions, GetNeighborCell(edgeA))
    ensures r.1.Some? <==> r.0 != null && FacingEdge(edgeA) in r.0.perimeterEdges
    ensures r.1.Some? ==> r.1.value == FacingEdge(edgeA)
  {
    var regionB := FirstContaining(regions, GetNeighborCell(edgeA));
    if regionB != null && FacingEdge(edgeA) in regionB.perimeterEdges then (regionB, Some(FacingEdge(edgeA)))
    else (regionB, None)
  }

  /** When the opposite region's perimeter is current and does not hold the
      cell of `edgeA` (as when the two are different regions of a painted
      scene), the facing edge is always found. */
  lemma FacingEdgeFound(regions: seq<RegionData>, edgeA: GridEdge)
    requires ResolveOpposite(regions, edgeA).0 != null
    requires ResolveOpposite(regions, edgeA).0.PerimeterIsCurrent()
    requires !ResolveOpposite(regions, edgeA).0.ContainsCell(edgeA.cell)
    ensures ResolveOpposite(regions, edgeA).1 == Some(FacingEdge(edgeA))
  {
    var regionB := ResolveOpposite(regions, edgeA).0;
    var f := FacingEdge(edgeA);
    NeighbourRoundTrip(edgeA);
    assert Across(f.cell, f.edge) == edgeA.cell;
    assert RegionUtility.OnPerimeter(Elements(regionB.containedCoords), f);
    assert f in Elements(regionB.perimeterEdges);
  }

  /** The window's two asset references: the scene's regions and its connectors. */
  class ConnectorWindow {
    var regionContainer: SceneRegionContainer?
    var connectorContainer: ConnectorContainer?

    /** `GetRegionAtCell`: the first region of the scene holding `cell`. */
    function GetRegionAtCell(cell: Cell): (r: RegionData?)
      requires regionContainer != null
      reads this, regionContainer, regionContainer.regions
      ensures r == FirstContaining(regionContainer.regions, cell)
    {
      FirstContaining(regionContainer.regions, cell)
    }

    /** `GetOppositeRegionData`: look up the neighbour's region, then scan its
        perimeter list for the facing edge, stopping at the first match. */
    method GetOppositeRegionData(edgeA: GridEdge) returns (regionB: RegionData?, edgeB: Option<GridEdge>)
      requires regionContainer != null
      ensures (regionB, edgeB) == ResolveOpposite(regionContainer.regions, edgeA)
    {
      var neighborCell := GetNeighborCell(edgeA);
      regionB := GetRegionAtCell(neighborCell);
      edgeB := None;
      if regionB != null {
        var expected := GridEdge(neighborCell, Opposite(edgeA.edge));
        var i := 0;
        while i < |regionB.perimeterEdges|
          invariant 0 <= i <= |regionB.perimeterEdges|
          invariant edgeB == None
          invariant forall j :: 0 <= j < i ==> regionB.perimeterEdges[j] != expected
        {
          var pe := regionB.perimeterEdges[i];
          if pe.cell == expected.cell && pe.edge == expected.edge {
            edgeB := Some(pe);
            break;
          }
          i := i + 1;
        }
      }
    }

    /** The connector `CreateConnector` appends: the opposite side looked up,
        `EdgeB` falling back to `EdgeA`. */
    method BuildConnector(regionA: RegionData?, edgeA: GridEdge, kind: ConnectorType) returns (c: RegionConnector)
      requires regionContainer != null
      ensures c == Built(regionContainer.regions, regionA, edgeA, kind)
    {
      var regionB, edgeB := GetOppositeRegionData(edgeA);
      c := NewConnector(regionA, edgeA, regionB, Some(edgeB.GetOr(edgeA)), kind);
    }

    /** `CreateConnector`: nothing when a connector with the key exists;
        otherwise resolve the opposite side and append a new connector. */
    method CreateConnector(regionA: RegionData?, edgeA: GridEdge, kind: ConnectorType)
      requires regionContainer != null && connectorContainer != null
      modifies connectorContainer
      ensures connectorContainer.connectors ==
              old(Created(connectorContainer.connectors, regionContainer.regions, regionA, edgeA, kind))
      ensures old(connectorContainer.Valid()) ==> connectorContainer.Valid()
    {
      var connectors := connectorContainer.connectors;
      ghost var regions := regionContainer.regions;
      ghost var built := Built(regions, regionA, edgeA, kind);
      CreatedIsAdded(connectors, regions, regionA, edgeA, kind);
      var k := FindKey(connectors, regionA, edgeA);
      if k < |connectors| {
        return;
      }
      var c := BuildConnector(regionA, edgeA, kind);
      assert c == built;
      connectorContainer.connectors := connectors + [c];
    }

    /** `CycleConnectorAtEdge`: create a Door where there is none, turn a
        Door into a Window, remove a Window. */
    method CycleConnectorAtEdge(region: RegionData?, edge: GridEdge)
      requires regionContainer != null && connectorContainer != null
      modifies connectorContainer
      ensures connectorContainer.connectors ==
              old(Cycled(connectorContainer.connectors, regionContainer.regions, region, edge))
      ensures old(connectorContainer.Valid()) ==> connectorContainer.Valid()
    {
      var connectors := connectorContainer.connectors;
      CycledKeepsKeysUnique(connectors, regionContainer.regions, region, edge);
      var k := FindKey(connectors, region, edge);
      if k < |connectors| {
        var existing := connectors[k];
        if existing.kind == Door {
          connectorContainer.connectors := connectors[k := existing.(kind := Window)];
        } else {
          connectorContainer.RemoveConnector(existing);
        }
      } else {
        CreateConnector(region, edge, Door);
      }
    }

    /** One pass of the loop of `RebuildAllConnectors`: drop the connector
        unless its first region still holds the edge's cell and lists the
        edge; otherwise search the opposite side afresh (the loop repeats
        the code of `GetOppositeRegionData`) and rebuild it with its kind. */
    method RebuildConnector(c: RegionConnector) returns (r: Option<RegionConnector>)
      requires regionContainer != null
      ensures r == RebuildOne(c, regionContainer.regions)
    {
      if c.regionA == null {
        return None;
      }
      var aHasCell := c.edgeA.cell in c.regionA.containedCoords;
      var aHasEdge := c.edgeA in c.regionA.perimeterEdges;
      if !aHasCell || !aHasEdge {
        return None;
      }
      var neighborCell := GetNeighborCell(c.edgeA);
      var regionB := GetRegionAtCell(neighborCell);
      var matchingEdgeB := None;
      if regionB != null {
        var expected := GridEdge(neighborCell, Opposite(c.edgeA.edge));
        var j := 0;
        while j < |regionB.perimeterEdges|
          invariant 0 <= j <= |regionB.perimeterEdges|
          invariant matchingEdgeB == None
          invariant forall m :: 0 <= m < j ==> regionB.perimeterEdges[m] != expected
        {
          var pe := regionB.perimeterEdges[j];
          if pe.cell == expected.cell && pe.edge == expected.edge {
            matchingEdgeB := Some(pe);
            break;
          }
          j := j + 1;
        }
      }
      assert (regionB, matchingEdgeB) == ResolveOpposite(regionContainer.regions, c.edgeA);
      var updated := NewConnector(c.regionA, c.edgeA, regionB, Some(matchingEdgeB.GetOr(c.edgeA)), c.kind);
      r := Some(updated);
    }

    /** The loop of `RebuildAllConnectors` over the existing list. */
    method RebuildList(existing: seq<RegionConnector>) returns (rebuilt: seq<RegionConnector>)
      requires regionContainer != null
      ensures rebuilt == Rebuilt(existing, regionContainer.regions)
    {
      ghost var regions := regionContainer.regions;
      rebuilt := [];
      for i := 0 to |existing|
        invariant rebuilt == Rebuilt(existing[..i], regions)
      {
        var c := existing[i];
        var one := RebuildConnector(c);
        assert existing[..i + 1] == existing[..i] + [c];
        RebuiltSnoc(existing[..i], regions, c);
        if one.Some? {
          rebuilt := rebuilt + [one.value];
        }
      }
      assert existing[..|existing|] == existing;
    }

    /** `RebuildAllConnectors`: keep each connector whose first region still
        holds its edge, with the opposite side resolved afresh and the kind
        kept; drop the rest. Nothing happens without both containers. */
    method RebuildAllConnectors()
      modifies connectorContainer
      ensures connectorContainer != null && regionContainer != null ==>
              connectorContainer.connectors == Rebuilt(old(connectorContainer.connectors), regionContainer.regions)
      ensures connectorContainer != null && regionContainer == null ==>
              connectorContainer.connectors == old(connectorContainer.connectors)
      ensures connectorContainer != null ==> (old(connectorContainer.Valid()) ==> connectorContainer.Valid())
    {
      if connectorContainer == null || regionContainer == null {
        return;
      }
      var existing := connectorContainer.connectors;
      var rebuilt := RebuildList(existing);
      connectorContainer.connectors := rebuilt;
      RebuiltKeepsKeysUnique(existing, regionContainer.regions);
    }
  }

  // ---------------------------------------------------------------------------
  // Create and cycle
  // ---------------------------------------------------------------------------

  /** Index of the first connector with key (regionA, edgeA), or `|cs|`
      (`FirstOrDefault` / `Any` with the key test). */
  function FindByKey(cs: seq<RegionConnector>, regionA: RegionData?, edgeA: GridEdge): (k: nat)
    ensures k <= |cs|
    ensures k < |cs| ==> cs[k].regionA == regionA && cs[k].edgeA == edgeA
    ensures forall j :: 0 <= j < k ==> !(cs[j].regionA == regionA && cs[j].edgeA == edgeA)
  {
    if cs == [] then 0
    else if cs[0].regionA == regionA && Grid.Equals(cs[0].edgeA, edgeA) then 0
    else 1 + FindByKey(cs[1..], regionA, edgeA)
  }

  /** The key search of the editor agrees with the container's `Contains`. */
  lemma FindByKeyIsHasKey(cs: seq<RegionConnector>, c: RegionConnector)
    ensures HasKey(cs, c) <==> FindByKey(cs, c.regionA, c.edgeA) < |cs|
  {
    var k := FindByKey(cs, c.regionA, c.edgeA);
    if HasKey(cs, c) {
      var i :| 0 <= i < |cs| && Connectors.Equals(cs[i], c);
      assert !(i < k);
    }
    if k < |cs| {
      assert Connectors.Equals(cs[k], c);
    }
  }

  /** The connector `CreateConnector` appends: the opposite side resolved,
      `EdgeB` falling back to `EdgeA` when no facing edge was found. */
  function Built(regions: seq<RegionData>, regionA: RegionData?, edgeA: GridEdge, kind: ConnectorType): (c: RegionConnector)
    reads regions
    ensures c.regionA == regionA && c.edgeA == edgeA && c.kind == kind
    ensures c.edgeB.Some? && c.cellB == None
  {
    var (regionB, edgeB) := ResolveOpposite(regions, edgeA);
    NewConnector(regionA, edgeA, regionB, Some(edgeB.GetOr(edgeA)), kind)
  }

  /** The connector list after `CreateConnector`. */
  function Created(cs: seq<RegionConnector>, regions: seq<RegionData>, regionA: RegionData?, edgeA: GridEdge,
                   kind: ConnectorType): (r: seq<RegionConnector>)
    reads regions
    ensures cs <= r && |r| <= |cs| + 1
    ensures |r| == |cs| + 1 ==> r[|cs|].regionA == regionA && r[|cs|].edgeA == edgeA && r[|cs|].kind == kind
  {
    if FindByKey(cs, regionA, edgeA) < |cs| then cs
    else cs + [Built(regions, regionA, edgeA, kind)]
  }

  /** The connector list after `CycleConnectorAtEdge`: absent becomes a new
      Door, a Door becomes a Window in place, a Window is removed. */
  function Cycled(cs: seq<RegionConnector>, regions: seq<RegionData>, regionA: RegionData?, edgeA: GridEdge): (r: seq<RegionConnector>)
    reads regions
    ensures |cs| - 1 <= |r| <= |cs| + 1
  {
    var k := FindByKey(cs, regionA, edgeA);
    if k == |cs| then Created(cs, regions, regionA, edgeA, Door)
    else if cs[k].kind == Door then cs[k := cs[k].(kind := Window)]
    else RemoveFirstLength(cs, cs[k]); RemoveFirst(cs, cs[k])
  }

  /** `CreateConnector` does nothing when the key is present; otherwise it
      appends exactly one connector, of the given kind, at that key, whose
      `EdgeB` is the facing edge or else `EdgeA`. */
  lemma CreatedProperties(cs: seq<RegionConnector>, regions: seq<RegionData>, regionA: RegionData?,
                          edgeA: GridEdge, kind: ConnectorType)
    ensures FindByKey(cs, regionA, edgeA) < |cs| ==> Created(cs, regions, regionA, edgeA, kind) == cs
    ensures FindByKey(cs, regionA, edgeA) == |cs| ==>
      var r := Created(cs, regions, regionA, edgeA, kind);
      var (regionB, edgeB) := ResolveOpposite(regions, edgeA);
      |r| == |cs| + 1 && r[..|cs|] == cs &&
      r[|cs|].regionA == regionA && r[|cs|].edgeA == edgeA && r[|cs|].kind == kind &&
      r[|cs|].regionB == regionB && r[|cs|].cellB == None &&
      r[|cs|].edgeB == Some(if edgeB.Some? then edgeB.value else edgeA)
  {
  }

  /** `CreateConnector` is the container's `AddConnector` of the built
      connector, so it keeps keys unique. */
  lemma CreatedIsAdded(cs: seq<RegionConnector>, regions: seq<RegionData>, regionA: RegionData?,
                       edgeA: GridEdge, kind: ConnectorType)
    ensures Created(cs, regions, regionA, edgeA, kind) == Added(cs, Built(regions, regionA, edgeA, kind))
    ensures KeysUnique(cs) ==> KeysUnique(Created(cs, regions, regionA, edgeA, kind))
  {
    var b := Built(regions, regionA, edgeA, kind);
    FindByKeyIsHasKey(cs, b);
    AddedProperties(cs, b);
  }

  /** Uniqueness of keys survives a cycle. */
  lemma CycledKeepsKeysUnique(cs: seq<RegionConnector>, regions: seq<RegionData>, regionA: RegionData?, edgeA: GridEdge)
    ensures KeysUnique(cs) ==> KeysUnique(Cycled(cs, regions, regionA, edgeA))
  {
    if !KeysUnique(cs) {
      return;
    }
    var k := FindByKey(cs, regionA, edgeA);
    if k == |cs| {
      CreatedIsAdded(cs, regions, regionA, edgeA, Door);
    } else if cs[k].kind == Door {
      var r := cs[k := cs[k].(kind := Window)];
      forall i, j | 0 <= i < j < |r| ensures !Connectors.Equals(r[i], r[j]) {
        assert Connectors.Equals(r[i], r[j]) <==> Connectors.Equals(cs[i], cs[j]);
      }
    } else {
      RemoveFirstIsWithout(cs, cs[k]);
      WithoutMembers(cs, [cs[k]]);
    }
  }

  /** The cycle law: from an absent key, cycling gives a Door, then a Window
      at the same place, then the original list again. */
  lemma CycleLaw(cs: seq<RegionConnector>, regions: seq<RegionData>, regionA: RegionData?, edgeA: GridEdge)
    requires FindByKey(cs, regionA, edgeA) == |cs|
    ensures var c1 := Cycled(cs, regions, regionA, edgeA);
      var c2 := Cycled(c1, regions, regionA, edgeA);
      |c1| == |cs| + 1 && c1[..|cs|] == cs && c1[|cs|].kind == Door &&
      c2 == c1[|cs| := c1[|cs|].(kind := Window)] &&
      Cycled(c2, regions, regionA, edgeA) == cs
  {
    var c1 := Cycled(cs, regions, regionA, edgeA);
    CreatedProperties(cs, regions, regionA, edgeA, Door);
    KeyAfterAppend(cs, c1, regionA, edgeA);
    var c2 := c1[|cs| := c1[|cs|].(kind := Window)];
    assert c2[..|cs|] == cs;
    KeyAfterAppend(cs, c2, regionA, edgeA);
    RemoveFirstAt(c2, c2[|cs|], |cs|);
    assert c2[..|cs|] + c2[|cs| + 1..] == cs;
  }

  /** A key absent from `cs` is found at the appended position. */
  lemma KeyAfterAppend(cs: seq<RegionConnector>, r: seq<RegionConnector>, regionA: RegionData?, edgeA: GridEdge)
    requires FindByKey(cs, regionA, edgeA) == |cs|
    requires |r| == |cs| + 1 && r[..|cs|] == cs && r[|cs|].regionA == regionA && r[|cs|].edgeA == edgeA
    ensures FindByKey(r, regionA, edgeA) == |cs|
    ensures forall j :: 0 <= j < |cs| ==> !Connectors.Equals(r[j], r[|cs|])
  {
    forall j | 0 <= j < |cs| ensures !Connectors.Equals(r[j], r[|cs|]) {
      assert r[j] == cs[j];
    }
  }

  /** An editing gesture at one edge. */
  datatype EditOp = Create(regionA: RegionData?, edgeA: GridEdge, kind: ConnectorType)
                  | Cycle(regionA: RegionData?, edgeA: GridEdge)

  function ApplyOps(cs: seq<RegionConnector>, regions: seq<RegionData>, ops: seq<EditOp>): seq<RegionConnector>
    reads regions
    decreases |ops|
  {
    if ops == [] then cs
    else
      var prev := ApplyOps(cs, regions, ops[..|ops| - 1]);
      match ops[|ops| - 1]
      case Create(a, e, k) => Created(prev, regions, a, e, k)
      case Cycle(a, e) => Cycled(prev, regions, a, e)
  }

  /** After any sequence of creates and cycles, no two connectors share a key. */
  lemma {:induction false} OpsKeepKeysUnique(cs: seq<RegionConnector>, regions: seq<RegionData>, ops: seq<EditOp>)
    requires KeysUnique(cs)
    ensures KeysUnique(ApplyOps(cs, regions, ops))
    decreases |ops|
  {
    if ops != [] {
      var prev := ApplyOps(cs, regions, ops[..|ops| - 1]);
      OpsKeepKeysUnique(cs, regions, ops[..|ops| - 1]);
      match ops[|ops| - 1]
      case Create(a, e, k) => CreatedIsAdded(prev, regions, a, e, k);
      case Cycle(a, e) => CycledKeepsKeysUnique(prev, regions, a, e);
    }
  }

  // ---------------------------------------------------------------------------
  // Rebuild
  // ---------------------------------------------------------------------------

  /** The first regions of the connectors, as a read frame. */
  function RegionsOf(cs: seq<RegionConnector>): set<RegionData>
  {
    set i | 0 <= i < |cs| && cs[i].regionA != null :: cs[i].regionA
  }

  /** A connector is still valid when its first region exists, holds the
      edge's cell and lists the edge on its perimeter. */
  predicate StillValid(c: RegionConnector)
    reads c.regionA
  {
    c.regionA != null && c.edgeA.cell in c.regionA.containedCoords && c.edgeA in c.regionA.perimeterEdges
  }

  /** One connector of `RebuildAllConnectors`: dropped when no longer valid,
      otherwise rebuilt with the same first region, edge and kind and a
      freshly resolved opposite side. */
  function RebuildOne(c: RegionConnector, regions: seq<RegionData>): (r: Option<RegionConnector>)
    reads regions, c.regionA
    ensures r.Some? <==> StillValid(c)
    ensures r.Some? ==> r.value.regionA == c.regionA && r.value.edgeA == c.edgeA && r.value.kind == c.kind
    ensures r.Some? ==> r.value.edgeB.Some? && r.value.cellB == None
  {
    if !StillValid(c) then None
    else Some(Built(regions, c.regionA, c.edgeA, c.kind))
  }

  /** The connector list `RebuildAllConnectors` assigns. */
  function Rebuilt(cs: seq<RegionConnector>, regions: seq<RegionData>): (r: seq<RegionConnector>)
    reads regions, set r: RegionData | r in RegionsOf(cs)
    ensures |r| <= |cs|
    decreases |cs|
  {
    if cs == [] then []
    else
      var init := cs[..|cs| - 1];
      assert RegionsOf(init) <= RegionsOf(cs) by {
        forall i | 0 <= i < |init| ensures init[i] == cs[i] { }
      }
      var one := RebuildOne(cs[|cs| - 1], regions);
      Rebuilt(init, regions) + (if one.Some? then [one.value] else [])
  }

  /** The keys of a list, in order. */
  function Keys(cs: seq<RegionConnector>): (ks: seq<(RegionData?, GridEdge)>)
    ensures |ks| == |cs|
    ensures forall i :: 0 <= i < |cs| ==> ks[i] == (cs[i].regionA, cs[i].edgeA)
  {
    if cs == [] then [] else Keys(cs[..|cs| - 1]) + [(cs[|cs| - 1].regionA, cs[|cs| - 1].edgeA)]
  }

  /** One more connector at the end of the input: the rebuild of the longer
      list is that of the shorter one, plus the rebuilt connector if valid. */
  lemma RebuiltSnoc(cs: seq<RegionConnector>, regions: seq<RegionData>, c: RegionConnector)
    ensures RegionsOf(cs) <= RegionsOf(cs + [c])
    ensures var one := RebuildOne(c, regions);
      Rebuilt(cs + [c], regions) == Rebuilt(cs, regions) + (if one.Some? then [one.value] else [])
  {
    var r := cs + [c];
    assert r[..|r| - 1] == cs;
    forall i | 0 <= i < |cs| ensures r[i] == cs[i] { }
  }

  /** The rebuild never adds and never reorders: its keys are those of the
      input in the same order with the invalid ones dropped. */
  lemma {:induction false} RebuiltKeys(cs: seq<RegionConnector>, regions: seq<RegionData>)
    ensures |Rebuilt(cs, regions)| <= |cs|
    ensures SubsequenceOf(Keys(Rebuilt(cs, regions)), Keys(cs))
    decreases |cs|
  {
    if cs != [] {
      var init := cs[..|cs| - 1];
      var c := cs[|cs| - 1];
      assert cs == init + [c];
      RebuiltKeys(init, regions);
      RebuiltSnoc(init, regions, c);
      var one := RebuildOne(c, regions);
      var prev := Rebuilt(init, regions);
      assert Keys(cs) == Keys(init) + [(c.regionA, c.edgeA)];
      if one.Some? {
        assert Keys(prev + [one.value]) == Keys(prev) + [(c.regionA, c.edgeA)];
        SubsequenceAppendBoth(Keys(prev), Keys(init), (c.regionA, c.edgeA));
      } else {
        assert Rebuilt(cs, regions) == prev;
        SubsequenceAppendRight(Keys(prev), Keys(init), (c.regionA, c.edgeA));
      }
    }
  }

  /** Each survivor is the rebuilt form of a valid input connector, and each
      valid input connector survives. */
  lemma {:induction false} RebuiltMembers(cs: seq<RegionConnector>, regions: seq<RegionData>, y: RegionConnector)
    ensures y in Rebuilt(cs, regions) <==> exists i :: 0 <= i < |cs| && RebuildOne(cs[i], regions) == Some(y)
    decreases |cs|
  {
    if cs != [] {
      var init := cs[..|cs| - 1];
      var c := cs[|cs| - 1];
      assert cs == init + [c];
      RebuiltMembers(init, regions, y);
      RebuiltSnoc(init, regions, c);
      if exists i :: 0 <= i < |init| && RebuildOne(init[i], regions) == Some(y) {
        var i :| 0 <= i < |init| && RebuildOne(init[i], regions) == Some(y);
        assert cs[i] == init[i];
      }
      if exists i :: 0 <= i < |cs| && RebuildOne(cs[i], regions) == Some(y) {
        var i :| 0 <= i < |cs| && RebuildOne(cs[i], regions) == Some(y);
        if i < |init| {
          assert cs[i] == init[i];
        }
      }
    }
  }

  /** Unique keys stay unique through the rebuild. */
  lemma {:induction false} RebuiltKeepsKeysUnique(cs: seq<RegionConnector>, regions: seq<RegionData>)
    ensures KeysUnique(cs) ==> KeysUnique(Rebuilt(cs, regions))
    decreases |cs|
  {
    if cs != [] && KeysUnique(cs) {
      var init := cs[..|cs| - 1];
      var c := cs[|cs| - 1];
      assert cs == init + [c];
      assert KeysUnique(init) by {
        forall i, j | 0 <= i < j < |init| ensures !Connectors.Equals(init[i], init[j]) {
          assert init[i] == cs[i] && init[j] == cs[j];
        }
      }
      RebuiltKeepsKeysUnique(init, regions);
      RebuiltSnoc(init, regions, c);
      var one := RebuildOne(c, regions);
      var prev := Rebuilt(init, regions);
      if one.Some? {
        forall k | 0 <= k < |prev| ensures !Connectors.Equals(prev[k], one.value) {
          RebuiltMembers(init, regions, prev[k]);
          var i :| 0 <= i < |init| && RebuildOne(init[i], regions) == Some(prev[k]);
          assert init[i] == cs[i];
        }
        var r := prev + [one.value];
        forall i, j | 0 <= i < j < |r| ensures !Connectors.Equals(r[i], r[j]) {
          if j == |prev| {
            assert r[i] == prev[i];
          } else {
            assert r[i] == prev[i] && r[j] == prev[j];
          }
        }
      }
    }
  }

  /** A rebuilt connector rebuilds to itself while no region changes. */
  lemma RebuildOneIdempotent(c: RegionConnector, regions: seq<RegionData>)
    requires RebuildOne(c, regions).Some?
    ensures RebuildOne(RebuildOne(c, regions).value, regions) == RebuildOne(c, regions)
  {
  }

  /** Rebuilding twice with no region edits in between is rebuilding once. */
  lemma {:induction false} RebuildIdempotent(cs: seq<RegionConnector>, regions: seq<RegionData>)
    ensures RegionsOf(Rebuilt(cs, regions)) <= RegionsOf(cs)
    ensures Rebuilt(Rebuilt(cs, regions), regions) == Rebuilt(cs, regions)
    decreases |cs|
  {
    if cs != [] {
      var init := cs[..|cs| - 1];
      var c := cs[|cs| - 1];
      assert cs == init + [c];
      RebuildIdempotent(init, regions);
      RebuiltSnoc(init, regions, c);
      var prev := Rebuilt(init, regions);
      var one := RebuildOne(c, regions);
      if one.Some? {
        RebuildOneIdempotent(c, regions);
        RebuiltSnoc(prev, regions, one.value);
        var r := prev + [one.value];
        assert Rebuilt(cs, regions) == r;
        assert Rebuilt(r, regions) == Rebuilt(prev, regions) + [one.value];

        assert RegionsOf(r) <= RegionsOf(cs) by {
          forall i | 0 <= i < |r| && r[i].regionA != null ensures r[i].regionA in RegionsOf(cs) {
            if i < |prev| {
              assert r[i] == prev[i];
              assert prev[i].regionA in RegionsOf(prev);
            } else {
              assert cs[|cs| - 1].regionA == r[i].regionA;
            }
          }
        }
      } else {
        assert Rebuilt(cs, regions) == prev;
      }
    }
  }

  /** The key search of `FirstOrDefault` / `Any`: the first list index whose
      connector has the key, or the length when there is none. */
  method FindKey(cs: seq<RegionConnector>, regionA: RegionData?, edgeA: GridEdge) returns (k: nat)
    ensures k == FindByKey(cs, regionA, edgeA)
  {
    k := 0;
    while k < |cs| && !(cs[k].regionA == regionA && Grid.Equals(cs[k].edgeA, edgeA))
      invariant 0 <= k <= |cs|
      invariant forall j :: 0 <= j < k ==> !(cs[j].regionA == regionA && cs[j].edgeA == edgeA)
    {
      k := k + 1;
    }
  }
}
