/** A door or window between two regions (`RegionConnector`): a record keyed
    on its first region and the edge of that region's perimeter it sits on. */
module Connectors {
  import opened Grid
  import opened Collections
  import opened Regions

  /** `ConnectorType` as the core uses it: the two kinds the editor cycles through. */
  datatype ConnectorType = Door | Window

  /** `RegionConnector`. `regionB` is null for "outside"; `cellB` and `edgeB`
      are the source's nullable `Vector2Int?` and `GridEdge?`. The record is
      a value here: an update of `Type` in place is the replacement of the
      element that holds it. */
  datatype RegionConnector = RegionConnector(
    regionA: RegionData?,
    edgeA: GridEdge,
    regionB: RegionData?,
    cellB: Option<Cell>,
    edgeB: Option<GridEdge>,
    kind: ConnectorType)

  /** The constructor: every argument is stored as given; `CellB` is not
      assigned and so stays null. */
  function NewConnector(regionA: RegionData?, edgeA: GridEdge, regionB: RegionData?,
                        edgeB: Option<GridEdge>, kind: ConnectorType): (c: RegionConnector)
    ensures c.regionA == regionA && c.edgeA == edgeA && c.regionB == regionB
    ensures c.edgeB == edgeB && c.kind == kind
    ensures c.cellB == None
  {
    RegionConnector(regionA, edgeA, regionB, None, edgeB, kind)
  }

  /** `RegionConnector.Equals`: the same first region (reference equality)
      and equal first edges. */
  predicate Equals(a: RegionConnector, b: RegionConnector)
    ensures Equals(a, b) <==> a.regionA == b.regionA && a.edgeA == b.edgeA
  {
    a.regionA == b.regionA && Grid.Equals(a.edgeA, b.edgeA)
  }

  /** The second region, its cell and edge, and the kind play no part in
      equality. */
  lemma EqualsIsKeyEquality(a: RegionConnector, b: RegionConnector)
    ensures Equals(a, b) <==> Equals(a, b.(regionB := a.regionB, cellB := a.cellB, edgeB := a.edgeB, kind := a.kind))
  {
  }

  lemma EqualsIsEquivalence(a: RegionConnector, b: RegionConnector, c: RegionConnector)
    ensures Equals(a, a)
    ensures Equals(a, b) ==> Equals(b, a)
    ensures Equals(a, b) && Equals(b, c) ==> Equals(a, c)
  {
  }

  /** `RegionConnector.GetHashCode`: a function of the key alone, so two
      connectors with the same key hash alike. */
  function HashCode(c: RegionConnector, regionHash: RegionData -> bv32, cellHash: Cell -> bv32): (h: bv32)
    ensures h == KeyHash(c.regionA, c.edgeA, regionHash, cellHash)
  {
    KeyHash(c.regionA, c.edgeA, regionHash, cellHash)
  }

  /** The hash of a key in 32-bit wrap-around arithmetic:
      `(17 * 23 + h(RegionA)) * 23 + h(EdgeA)`, with 0 for a null region.
      The region's hash is a parameter; the edge's is `GridEdge.GetHashCode`. */
  function KeyHash(regionA: RegionData?, edgeA: GridEdge, regionHash: RegionData -> bv32, cellHash: Cell -> bv32): (h: bv32)
    ensures regionA == null ==> h == 8993 + Grid.HashCode(edgeA, cellHash)
  {
    var hash: bv32 := 17;
    var hash1 := hash * 23 + (if regionA != null then regionHash(regionA) else 0);
    hash1 * 23 + Grid.HashCode(edgeA, cellHash)
  }

  lemma EqualConnectorsHashEqual(a: RegionConnector, b: RegionConnector,
                                 regionHash: RegionData -> bv32, cellHash: Cell -> bv32)
    requires Equals(a, b)
    ensures HashCode(a, regionHash, cellHash) == HashCode(b, regionHash, cellHash)
  {
  }
}
