/** The state of one region (`RegionDataSO`) and the scene's list of regions. */
module Regions {
  import opened Grid
  import opened Collections
  import RegionUtility

  /** `UnityEngine.Color`, carried through unchanged. */
  datatype Color = Color(r: real, g: real, b: real, a: real)

  /** A region: identity attributes plus its cell list and perimeter list. */
  class RegionData {
    var regionName: string
    var regionColor: Color
    /** `SerializableGuid ID`; the zero value stands for the empty GUID. */
    var id: nat
    var containedCoords: seq<Cell>
    var perimeterEdges: seq<GridEdge>

    /** A fresh instance as `ScriptableObject.CreateInstance` gives it: the
        two lists are empty. */
    constructor ()
      ensures containedCoords == [] && perimeterEdges == []
      ensures regionName == "" && regionColor == Color(0.0, 0.0, 0.0, 0.0) && id == 0
    {
      regionName := "";
      regionColor := Color(0.0, 0.0, 0.0, 0.0);
      id := 0;
      containedCoords := [];
      perimeterEdges := [];
    }

    /** The read-only view is the stored list itself, not a copy. */
    function ContainedCoords(): (cs: seq<Cell>)
      reads this
      ensures cs == containedCoords
    {
      containedCoords
    }

    function PerimeterEdges(): (es: seq<GridEdge>)
      reads this
      ensures es == perimeterEdges
    {
      perimeterEdges
    }

    /** `Initialize(n, color)`; the new GUID is a parameter. */
    method Initialize(n: string, color: Color, newId: nat)
      modifies this
      ensures regionName == n && regionColor == color && id == newId
      ensures containedCoords == old(containedCoords) && perimeterEdges == old(perimeterEdges)
    {
      SetRegionName(n);
      regionColor := color;
      id := newId;
    }

    method SetRegionName(newName: string)
      modifies this`regionName
      ensures regionName == newName
    {
      regionName := newName;
    }

    method SetColor(newColor: Color)
      modifies this`regionColor
      ensures regionColor == newColor
    {
      regionColor := newColor;
    }

    /** `SetCoords`: both lists are cleared and refilled from the arguments,
        so the previous contents are discarded, not merged. */
    method SetCoords(contained: seq<Cell>, edges: seq<GridEdge>)
      modifies this`containedCoords, this`perimeterEdges
      ensures containedCoords == contained && perimeterEdges == edges
      ensures regionName == old(regionName) && regionColor == old(regionColor) && id == old(id)
    {
      containedCoords := [];
      containedCoords := containedCoords + contained;
      perimeterEdges := [];
      perimeterEdges := perimeterEdges + edges;
    }

    /** `ContainsCell`: a linear search of `containedCoords`. */
    predicate ContainsCell(c: Cell)
      reads this
      ensures ContainsCell(c) <==> exists i :: 0 <= i < |containedCoords| && containedCoords[i] == c
    {
      c in containedCoords
    }

    /** The region is in the state the painter leaves it in: no cell or edge
        listed twice, and the perimeter is that of the current cells. */
    ghost predicate PerimeterIsCurrent()
      reads this
    {
      CurrentPerimeter(containedCoords, perimeterEdges)
    }
  }

  /** No cell or edge listed twice, and `edges` lists the perimeter of `cells`. */
  ghost predicate CurrentPerimeter(cells: seq<Cell>, edges: seq<GridEdge>)
  {
    Distinct(cells) && Distinct(edges) && Elements(edges) == RegionUtility.PerimeterEdgesOf(Elements(cells))
  }

  /** The `Regions` list of a scene's region container. */
  class SceneRegionContainer {
    var regions: seq<RegionData>
  }

  /** The cell set of each region, in list order. */
  function OwnerSets(regions: seq<RegionData>): (owners: seq<set<Cell>>)
    reads regions
    ensures |owners| == |regions|
    ensures forall k :: 0 <= k < |regions| ==> owners[k] == Elements(regions[k].containedCoords)
  {
    if regions == [] then []
    else [Elements(regions[0].containedCoords)] + OwnerSets(regions[1..])
  }

  /** Index of the first set that holds `c`, or `|owners|` when none does. */
  function FirstOwner(owners: seq<set<Cell>>, c: Cell): (k: nat)
    ensures k <= |owners|
    ensures k < |owners| ==> c in owners[k]
    ensures forall j :: 0 <= j < k ==> c !in owners[j]
  {
    if owners == [] then 0
    else if c in owners[0] then 0
    else 1 + FirstOwner(owners[1..], c)
  }

  /** The first region of the list that contains `c`, or null
      (`Regions.FirstOrDefault(r => r.ContainsCell(c))`). */
  function FirstContaining(regions: seq<RegionData>, c: Cell): (r: RegionData?)
    reads regions
    ensures r == null <==> forall k :: 0 <= k < |regions| ==> !regions[k].ContainsCell(c)
    ensures r != null ==> r in regions && r.ContainsCell(c)
    ensures r != null ==>
      exists k :: 0 <= k < |regions| && regions[k] == r && forall j :: 0 <= j < k ==> !regions[j].ContainsCell(c)
  {
    var k := FirstOwner(OwnerSets(regions), c);
    if k < |regions| then regions[k] else null
  }
}
