# Shoelace grid regions: a verified model

This project models the geometry and connectivity engine of the Shoelace
Studios grid-region tool for Unity. The tool splits a grid of integer cells
into named regions. Each region keeps a list of its cells and a list of its
perimeter edges. Regions are linked by typed connectors (doors and windows)
that sit on a boundary edge of one region and face into a neighbouring
region.

The model is written in Dafny, one module per source file:

- `Grid` (`grid.dfy`) covers `GridEdge`. It holds cells, the four sides
  Top/Bottom/Left/Right, value equality and a 32-bit hash. It also holds the
  world geometry of an edge: its two endpoints and its midpoint.
- `RegionUtility` (`region_utility.dfy`) has both perimeter computations.
  - Edges: the sides of the region's cells that face a cell outside the region.
  - Boundary cells: cells with a valid neighbour outside the region.
  - The edge computation is a loop checked against a reference set
    comprehension. The boundary-cell computation is a loop checked by a
    membership test, both directions, and by having no duplicates.
- `Regions` (`region_data.dfy`) covers `RegionDataSO`. It is a class whose
  cell list and perimeter list are fields that `SetCoords` replaces together.
  It also has the first-match lookup of a region by cell.
- `Connectors` (`region_connector.dfy`) covers the `RegionConnector` record.
  Its equality and hash are keyed on RegionA and EdgeA.
- `ConnectorContainers` (`connector_container.dfy`) covers
  `ConnectorContainerSO`.
  - The methods are add-unless-present, remove-first-equal, and the two-loop
    cleanup that runs when a region changes.
  - Each is a method of a class over a `seq` field, proved against a list
    function.
- `PainterLogic` (`painter_logic.dfy`) covers the logic of `RegionPainterLogic`.
  - Island detection: a breadth-first flood fill that is proved to yield the
    4-connected components.
  - The add, subtract and overwrite painting update, specified by a fold over
    the brushed cells.
  - The rectangle of cells between two corners.
- `ConnectorEditor` (`connector_editor.dfy`) covers the connector logic of
  `RegionConnectorWindow`.
  - The neighbour across a side, and the opposite side.
  - Lookup of the opposite region and edge.
  - The guarded create and the Door → Window → absent cycle.
  - The rebuild pass.
- `MeshGenerator` (`mesh_generator.dfy`) covers the per-cell quad layout of
  `RegionMeshGenerator`.
- `Collections` (`collections.dfy`) holds shared helpers.
  - An option type, for C#'s nullable `Vector2Int?` and `GridEdge?`.
  - Duplicate-freedom and subsequences.
  - Iteration over a hash set in an order the model leaves open.

How the outside world is modelled:

- `WorldGridManager` is passed in as parameters: the validity check
  `isValidCell`, the cell size `cellSize: real`, and the UV rule `uvOf`.
- Regions are object identities (`RegionData`), and the scene's region list
  is a `seq<RegionData>`.
- A connector is a value. The source's in-place `existing.Type = Window`
  becomes a replacement of the list element at that index.
- The read-only views `ContainedCoords` and `PerimeterEdges` are plain field
  reads. They return the stored lists themselves, so what callers see is
  what `SetCoords` and the constructor state about those lists.
- `GetHashCode` of `GridEdge` and of `RegionConnector` are modelled as
  plain 32-bit computations. What they promise callers is agreement with
  `Equals`, and the rows of `Grid.EqualEdgesHashEqual`,
  `Grid.SidesOfCellHashApart` and `Connectors.EqualConnectorsHashEqual`
  state that. `Connectors.KeyHash` gives the hash of a key with no first
  region.

Two facts about the code shape the model.

- `CellB`: the `RegionConnector` constructor never assigns it, and nothing
  else in the core does. So every connector the core builds has no `CellB`.
  The second removal clause of `OnRegionUpdated` never fires for such
  connectors; `NoCellBOnlyFirstClause` states this.
- Meshing: `RegionMeshGenerator` emits two triangles per cell. The program
  has no polygon-loop builder and no triangulator.

## Model

| member | source | states |
|---|---|---|
| Grid.Neighbours4 | Runtime/RegionUtility.cs:34-40 | the four neighbours in source order: four distinct cells, exactly the cells adjacent to `c` |
| Grid.Across | Runtime/RegionUtility.cs:15-21 | the cell across a side is adjacent, in that side's direction, and on the same row or column |
| Grid.Equals | Runtime/GridEdge.cs:25-30 | two edges are `Equals` iff their cells and sides are equal |
| Grid.EqualEdgesHashEqual | Runtime/GridEdge.cs:32-35 | equal edges have equal hash codes, whatever the cell hash |
| Grid.SidesOfCellHashApart | Runtime/GridEdge.cs:32-35 | the four sides of one cell have four different hash codes |
| Grid.ToWorldVerts | Runtime/GridEdge.cs:60-75 | exactly two endpoints; the first is the bottom or left corner; the second is one cellSize further along x (Top, Bottom) or y (Left, Right) |
| Grid.WorldVertsAreCorners | Runtime/GridEdge.cs:60-75 | Top gives (tl, tr), Bottom (bl, br), Left (bl, tl), Right (br, tr) |
| Grid.SharedBoundarySameSegment | Runtime/GridEdge.cs:62-74 | the Top of c and the Bottom of the cell above are the same segment; likewise Right and Left |
| Grid.GetEdgeMiddle | Runtime/GridEdge.cs:37-57 | the edge middle is the midpoint of the two `ToWorldVerts` endpoints |
| RegionUtility.PerimeterEdgesOf | Runtime/RegionUtility.cs:15-21 | an edge is on the perimeter iff its cell is in the set and the cell across its side is not |
| RegionUtility.CalculatePerimeterEdges | Runtime/RegionUtility.cs:8-25 | the loop over the cells returns exactly the perimeter edge set |
| RegionUtility.EmptyCellsHaveNoPerimeter | Runtime/RegionUtility.cs:10-24 | the empty cell set has no perimeter edge |
| RegionUtility.PerimeterAtMostFourPerCell | Runtime/RegionUtility.cs:15-21 | at most 4·|cells| perimeter edges |
| RegionUtility.LoneCellPerimeter | Runtime/RegionUtility.cs:15-21 | a lone cell has exactly its four sides as perimeter |
| RegionUtility.BlockPerimeter | Runtime/RegionUtility.cs:15-21 | a 2×2 block has exactly the eight outer edges, none between two of its cells |
| RegionUtility.CalculatePerimeter | Runtime/RegionUtility.cs:27-52 | a cell is listed iff it is contained and some 4-neighbour is valid and outside; no cell is listed twice |
| Regions.RegionData.constructor | Runtime/RegionDataSO.cs:16-17 | a new region has empty cell and perimeter lists |
| Regions.RegionData.Initialize | Runtime/RegionDataSO.cs:22-27 | sets name, colour and ID to the arguments and leaves both lists unchanged |
| Regions.RegionData.SetRegionName | Runtime/RegionDataSO.cs:29-42 | the name becomes the argument, and only the name changes |
| Regions.RegionData.SetColor | Runtime/RegionDataSO.cs:43-48 | the colour becomes the argument, and only the colour changes |
| Regions.RegionData.SetCoords | Runtime/RegionDataSO.cs:50-61 | both lists become exactly the arguments, in order, with the old contents discarded; name, colour and ID unchanged |
| Regions.RegionData.ContainsCell | Runtime/RegionDataSO.cs:63 | true iff the cell occurs at some index of the cell list |
| Regions.FirstContaining | Editor/RegionConnectorEditor.cs:339-342 | null iff no region contains the cell; otherwise the region at the first index that contains it |
| Connectors.NewConnector | Runtime/Connectors/RegionConnector.cs:17-24 | stores RegionA, EdgeA, RegionB, EdgeB and Type as given; CellB stays null |
| Connectors.Equals | Runtime/Connectors/RegionConnector.cs:26-30 | two connectors are equal iff they have the same RegionA reference and equal EdgeA |
| Connectors.EqualsIsKeyEquality | Runtime/Connectors/RegionConnector.cs:26-30 | RegionB, CellB, EdgeB and Type play no part in equality |
| Connectors.EqualsIsEquivalence | Runtime/Connectors/RegionConnector.cs:26-30 | connector equality is reflexive, symmetric and transitive |
| Connectors.KeyHash | Runtime/Connectors/RegionConnector.cs:34-39 | with a null RegionA the 32-bit hash is 17·23·23 = 8993 plus the edge's hash |
| Connectors.EqualConnectorsHashEqual | Runtime/Connectors/RegionConnector.cs:32-41 | equal connectors have equal 32-bit wrap-around hash codes |
| ConnectorContainers.ConnectorContainer.constructor | Runtime/Connectors/ConnectorContainerSO.cs:10 | a new container holds no connectors |
| ConnectorContainers.Added | Runtime/Connectors/ConnectorContainerSO.cs:12-17 | the old list is a prefix of the new one, which is at most one longer and holds the key |
| ConnectorContainers.AddedProperties | Runtime/Connectors/ConnectorContainerSO.cs:12-17 | an add keeps keys unique, and a second add of the same key changes nothing |
| ConnectorContainers.ConnectorContainer.AddConnector | Runtime/Connectors/ConnectorContainerSO.cs:12-17 | appends iff no connector with the key is present, and keeps keys unique |
| ConnectorContainers.RemoveFirstLength | Runtime/Connectors/ConnectorContainerSO.cs:21 | `List.Remove` drops at most one element |
| ConnectorContainers.RemoveFirstAt | Runtime/Connectors/ConnectorContainerSO.cs:21 | removal cuts out exactly the element at the first matching index and keeps the rest in order; with no match the list is unchanged |
| ConnectorContainers.ConnectorContainer.RemoveConnector | Runtime/Connectors/ConnectorContainerSO.cs:19-23 | removes the first connector equal to the argument, and keeps keys unique |
| ConnectorContainers.RemoveFirstIsWithout | Runtime/Connectors/ConnectorContainerSO.cs:21 | with unique keys, removing the first match removes every match |
| ConnectorContainers.RemoveAllIsWithout | Runtime/Connectors/ConnectorContainerSO.cs:39-40 | with unique keys, removing the listed connectors one by one drops exactly those whose key is listed |
| ConnectorContainers.StaleIsMissingCell | Runtime/Connectors/ConnectorContainerSO.cs:32-36 | the RegionA clause holds iff the connector starts in the region on a cell missing from its list; the RegionB clause iff it ends there with a CellB missing from the list |
| ConnectorContainers.CollectedLength | Runtime/Connectors/ConnectorContainerSO.cs:30-37 | the to-remove list holds at most two entries per connector, one per clause |
| ConnectorContainers.CollectedMembers | Runtime/Connectors/ConnectorContainerSO.cs:30-37 | the to-remove list holds exactly the connectors that meet either stale clause |
| ConnectorContainers.ConnectorContainer.CollectStale | Runtime/Connectors/ConnectorContainerSO.cs:30-37 | the first loop builds the to-remove list once per clause that holds |
| ConnectorContainers.OnRegionUpdatedKeepsFresh | Runtime/Connectors/ConnectorContainerSO.cs:26-44 | with unique keys, the two loops together keep exactly the connectors that are not stale, in order |
| ConnectorContainers.KeepFreshProperties | Runtime/Connectors/ConnectorContainerSO.cs:30-40 | a connector survives iff it was present and is not stale; survivors keep their order and unique keys; every survivor starting in the region starts on one of its cells |
| ConnectorContainers.ConnectorContainer.OnRegionUpdated | Runtime/Connectors/ConnectorContainerSO.cs:26-44 | the list becomes the sequential removal of the collected connectors; with unique keys that is the fresh connectors in order, and keys stay unique |
| ConnectorContainers.NoCellBOnlyFirstClause | Runtime/Connectors/ConnectorContainerSO.cs:35 | for a connector without CellB, only the RegionA clause decides staleness |
| PainterLogic.VisitNeighbours | Editor/RegionPainterLogic.cs:257-272 | each 4-neighbour still remaining moves from the remaining set into the island and onto the queue's end; afterwards no neighbour of the dequeued cell remains |
| PainterLogic.GrowIsland | Editor/RegionPainterLogic.cs:242-273 | the flood fill returns a 4-connected island holding the start; the island is taken out of the remaining set, with no remaining cell adjacent to it |
| PainterLogic.GetIslands | Editor/RegionPainterLogic.cs:235-279 | the islands partition the input: each non-empty, 4-connected and closed under adjacency; pairwise disjoint; covering it; empty iff the input is empty |
| PainterLogic.PartitionCount | Editor/RegionPainterLogic.cs:230-233 | an island partition has more than one island iff the set is non-empty and not 4-connected |
| PainterLogic.IslandsAtMostCells | Editor/RegionPainterLogic.cs:235-279 | disjoint non-empty islands inside a set are no more than its cells |
| PainterLogic.HasMultipleIslands | Editor/RegionPainterLogic.cs:230-233 | true iff the cell set is non-empty and not 4-connected |
| PainterLogic.IslandsNotAdjacent | Editor/RegionPainterLogic.cs:255-273 | no cell of one island is a 4-neighbour of a cell of another |
| PainterLogic.SeparateCellsTwoIslands | Editor/RegionPainterLogic.cs:235-279 | two cells with a gap between them form two one-cell islands |
| PainterLogic.BlockIsOneIsland | Editor/RegionPainterLogic.cs:235-279 | a 2×2 block is a single island |
| PainterLogic.PaintStep | Editor/RegionPainterLogic.cs:169-207 | one valid cell: subtract removes it from the working set; add puts it in unless another region holds it and overwrite is off, and then changes nothing; only that cell moves; each region keeps its cells or loses that one; the target's entry is unchanged |
| PainterLogic.Paint | Editor/RegionPainterLogic.cs:163-208 | painting a list of cells keeps the number of regions |
| PainterLogic.ValidCoordsGrow | Editor/RegionPainterLogic.cs:165-167 | the valid brushed cells seen so far only grow, by the next cell when it is valid |
| PainterLogic.PaintOnlyShrinksOthers | Editor/RegionPainterLogic.cs:188-199 | painting only ever removes cells from other regions, and the number of regions is unchanged |
| PainterLogic.SubtractRemovesCoords | Editor/RegionPainterLogic.cs:206 | subtract mode removes exactly the valid brushed cells from the target and touches no other region, whether or not overwrite is set |
| PainterLogic.AddSkipsTakenCoords | Editor/RegionPainterLogic.cs:183-187 | add without overwrite adds exactly the valid brushed cells that no other region holds, and touches no other region |
| PainterLogic.OverwriteAddsAllCoords | Editor/RegionPainterLogic.cs:188-201 | add with overwrite adds every valid brushed cell to the target |
| PainterLogic.OverwriteTakesFromOthers | Editor/RegionPainterLogic.cs:188-199 | with disjoint regions, overwrite removes every valid brushed cell from every other region, and the regions stay disjoint |
| PainterLogic.FindExisting | Editor/RegionPainterLogic.cs:171-181 | the search returns the first region containing the cell, or null, together with its index |
| PainterLogic.StoreCells | Editor/RegionPainterLogic.cs:210-211 | the region's cells become the set, with its perimeter recomputed; no cell or edge is listed twice |
| PainterLogic.TakeCell | Editor/RegionPainterLogic.cs:191-198 | the overwrite branch removes the cell from exactly the region that held it, whose perimeter is then current; no other region's cells change |
| PainterLogic.AddCell | Editor/RegionPainterLogic.cs:169-202 | an add is one painting step: the cell joins the working set unless another region holds it and overwrite is off; with overwrite that region loses it |
| PainterLogic.PaintCell | Editor/RegionPainterLogic.cs:169-207 | one valid cell updates the working set and the other regions as one painting step; a region that is written held that cell and gets a current perimeter |
| PainterLogic.PaintCoords | Editor/RegionPainterLogic.cs:163-208 | the loop over the brushed cells, skipping invalid ones, is the painting fold; the target is not written during the loop; a region that is written held a valid brushed cell and gets a current perimeter |
| PainterLogic.ApplyToRegion | Editor/RegionPainterLogic.cs:156-215 | the target and the other regions end with the painting fold's cell sets; the target's perimeter matches its cells; any other region that is written held a valid brushed cell and gets a current perimeter |
| PainterLogic.MakeRect | Editor/RegionPainterLogic.cs:281-290 | the smallest rectangle holding both corners: inclusive width and height at least 1, and its edges on the corners' coordinates |
| PainterLogic.RectCells | Editor/RegionPainterLogic.cs:142-145 | exactly the cells between the two corners, inclusive, each once, width·height of them |
| ConnectorEditor.GetNeighborCell | Editor/RegionConnectorEditor.cs:315-325 | the neighbour is the cell across the edge's side |
| ConnectorEditor.Opposite | Editor/RegionConnectorEditor.cs:327-337 | the opposite side differs from the side and lies on the same axis |
| ConnectorEditor.OppositeInvolution | Editor/RegionConnectorEditor.cs:327-337 | Opposite is an involution: Top↔Bottom, Left↔Right |
| ConnectorEditor.NeighbourRoundTrip | Editor/RegionConnectorEditor.cs:315-337 | the neighbour of the neighbour across the opposite side is the original cell |
| ConnectorEditor.OppositeEdgeSameSegment | Editor/RegionConnectorEditor.cs:315-337 | the facing edge on the neighbour is the same world segment as the original edge |
| ConnectorEditor.ResolveOpposite | Editor/RegionConnectorEditor.cs:165-185 | regionB is the first region holding the neighbour cell; edgeB is present iff the facing edge is on regionB's perimeter list, and then equals it |
| ConnectorEditor.FacingEdgeFound | Editor/RegionConnectorEditor.cs:171-182 | when regionB's perimeter is current and regionB does not hold the edge's own cell, the facing edge is always found |
| ConnectorEditor.ConnectorWindow.GetRegionAtCell | Editor/RegionConnectorEditor.cs:339-342 | the first region of the scene that holds the cell, or null |
| ConnectorEditor.ConnectorWindow.GetOppositeRegionData | Editor/RegionConnectorEditor.cs:165-185 | the lookup and perimeter scan return the resolved opposite region and edge |
| ConnectorEditor.ConnectorWindow.BuildConnector | Editor/RegionConnectorEditor.cs:156-158 | the new connector carries the resolved opposite side, with EdgeB falling back to EdgeA |
| ConnectorEditor.ConnectorWindow.CreateConnector | Editor/RegionConnectorEditor.cs:149-163 | the list becomes the guarded create: unchanged if the key exists, the built connector appended otherwise; keys stay unique |
| ConnectorEditor.ConnectorWindow.CycleConnectorAtEdge | Editor/RegionConnectorEditor.cs:122-147 | the list becomes the cycle: absent becomes a new Door, a Door becomes a Window in place, a Window is removed; keys stay unique |
| ConnectorEditor.ConnectorWindow.RebuildConnector | Editor/RegionConnectorEditor.cs:199-234 | one pass of the loop: nothing when RegionA is null, lacks EdgeA's cell or no longer lists EdgeA; otherwise the connector rebuilt with the freshly searched opposite side |
| ConnectorEditor.ConnectorWindow.RebuildList | Editor/RegionConnectorEditor.cs:196-235 | the loop yields the rebuilt form of every kept connector, in input order |
| ConnectorEditor.ConnectorWindow.RebuildAllConnectors | Editor/RegionConnectorEditor.cs:192-240 | without both containers nothing changes; otherwise the list becomes the rebuild of the old list, and keys stay unique |
| ConnectorEditor.FindByKey | Editor/RegionConnectorEditor.cs:125 | the first index whose connector has the key, or the length when none has it |
| ConnectorEditor.FindByKeyIsHasKey | Editor/RegionConnectorEditor.cs:152-153 | the editor's key test finds a connector iff the container's `Contains` would |
| ConnectorEditor.FindKey | Editor/RegionConnectorEditor.cs:125 | the loop search returns the first index with the key |
| ConnectorEditor.Built | Editor/RegionConnectorEditor.cs:156-158 | the built connector keeps the given RegionA, EdgeA and type, always has an EdgeB and has no CellB |
| ConnectorEditor.Created | Editor/RegionConnectorEditor.cs:149-163 | create keeps the old list as a prefix and adds at most one connector, which carries the given key and type |
| ConnectorEditor.Cycled | Editor/RegionConnectorEditor.cs:122-147 | a cycle changes the list's length by at most one |
| ConnectorEditor.CreatedProperties | Editor/RegionConnectorEditor.cs:152-158 | with the key present, create is a no-op; otherwise it appends exactly one connector, with that key, the given type, the resolved RegionB, no CellB, and EdgeB the facing edge or else EdgeA |
| ConnectorEditor.CreatedIsAdded | Editor/RegionConnectorEditor.cs:149-163 | create is the container's add of the built connector, so it keeps keys unique |
| ConnectorEditor.CycledKeepsKeysUnique | Editor/RegionConnectorEditor.cs:122-147 | a cycle keeps keys unique |
| ConnectorEditor.CycleLaw | Editor/RegionConnectorEditor.cs:125-142 | from an absent key, one cycle appends a Door, the next turns it into a Window in place, and the third gives back the original list |
| ConnectorEditor.OpsKeepKeysUnique | Editor/RegionConnectorEditor.cs:122-163 | after any sequence of creates and cycles, no two connectors share (RegionA, EdgeA) |
| ConnectorEditor.RebuildOne | Editor/RegionConnectorEditor.cs:199-234 | a connector is kept iff RegionA is non-null, holds EdgeA's cell and lists EdgeA on its perimeter; a kept one keeps RegionA, EdgeA and Type, has an EdgeB and no CellB |
| ConnectorEditor.Rebuilt | Editor/RegionConnectorEditor.cs:192-237 | the rebuilt list is never longer than the input |
| ConnectorEditor.RebuiltSnoc | Editor/RegionConnectorEditor.cs:199-235 | one more input connector adds its rebuilt form, if it is kept, at the end of the output |
| ConnectorEditor.RebuiltKeys | Editor/RegionConnectorEditor.cs:187-235 | the output is never longer than the input, and its keys are an order-preserving subsequence of the input's |
| ConnectorEditor.RebuiltMembers | Editor/RegionConnectorEditor.cs:199-235 | a connector is in the output iff it is the rebuilt form of a kept input connector |
| ConnectorEditor.RebuiltKeepsKeysUnique | Editor/RegionConnectorEditor.cs:199-237 | rebuilding keeps keys unique |
| ConnectorEditor.RebuildOneIdempotent | Editor/RegionConnectorEditor.cs:205-232 | a rebuilt connector rebuilds to itself while no region changes |
| ConnectorEditor.RebuildIdempotent | Editor/RegionConnectorEditor.cs:199-235 | rebuilding twice with no region edits in between equals rebuilding once |
| MeshGenerator.Quad | Editor/RegionMeshGenerator.cs:33-39 | a cell's quad is its four corners bl, br, tr, tl in that order |
| MeshGenerator.GenerateRegionMesh | Editor/RegionMeshGenerator.cs:12-82 | no mesh (the `Min()` exception) iff the region has no cells; the distinct cells are visited once each; the name is the region name plus "_Mesh"; vertices and triangles are the per-cell layout; one UV per vertex, computed from that vertex |
| MeshGenerator.MeshVerticesLayout | Editor/RegionMeshGenerator.cs:31-67 | 4n vertices; vertices 4i to 4i+3 are the quad of the i-th visited cell |
| MeshGenerator.MeshTrianglesLayout | Editor/RegionMeshGenerator.cs:43-66 | 6n indices; cell i adds (4i, 4i+2, 4i+1) and (4i, 4i+3, 4i+2); every index is in [0, 4n) |
| MeshGenerator.MeshIsWellFormed | Editor/RegionMeshGenerator.cs:31-67 | four vertices and six indices per cell, and every index names a vertex of the mesh |
| MeshGenerator.QuadSidesAreEdges | Editor/RegionMeshGenerator.cs:33-41 | the quad's sides are the world segments of the cell's four edges |
| MeshGenerator.QuadTrianglesClockwise | Editor/RegionMeshGenerator.cs:43-47 | with a positive cell size, both triangles of a quad have the same winding and area half a cell |
| MeshGenerator.QuadTrianglesCoverQuad | Editor/RegionMeshGenerator.cs:43-47 | a quad's two triangles use exactly its four vertices and share the bl–tr diagonal |
| MeshGenerator.DistinctCellsDistinctQuads | Editor/RegionMeshGenerator.cs:31-41 | with a non-zero cell size, different cells give quads at different positions |

## Left out

- Editor/RegionPainterWindow.cs is not part of this model. It is editor window UI.
- Runtime/SceneRegionContainerSO.cs is not part of this model. It handles region asset creation and deletion. Only its `Regions` list is modelled (`Regions.SceneRegionContainer`).
- ConnectorType.cs is not part of this model. `Connectors.ConnectorType` has the two values the editor uses, Door and Window.
- All drawing, hover and scene-GUI code is left out; it is rendering and mouse picking in floats. This covers `DrawRegion*`, `DrawIslandWarnings`, `DrawConnectorGizmo`, `TryGetEdgeUnderMouse`, `ClosestPointOnLineSegment` and `GetMouseWorldPoint`.
- The event tests of `HandlePenMode` and `HandleRectMode` are left out, because they are input handling. The same goes for the drag state `rectStart`. What the two modes do to cells is modelled: `ApplyToRegion` with one coordinate, and `RectCells` for the rectangle sweep.
- `EditorUtility.SetDirty`, `AssetDatabase.SaveAssets`, `SceneView.RepaintAll`, the asset rename in `SetRegionName` and `e.Use()` are editor side effects with no effect on the modelled state.
- `WorldGridManager` is a parameter. `IsValidCell` is `isValidCell`, `CellSize` is `cellSize`, and `TotalWorldSize` is folded into `uvOf`.
- Floats are modelled as Dafny reals, so rounding is not modelled.
- MeshGenerator.GenerateRegionMesh: the UV arithmetic is left out and replaced by a per-vertex rule `uvOf`. That arithmetic is float division by `TotalWorldSize`, or by the region's `width`/`height`, which are 0 for a one-row or one-column region. Also left out: the values of `ContainedCoords.Min()`/`Max()`. They are used only by that UV arithmetic, and the comparison they use on `Vector2Int` is Unity's code, outside this repository.
- MeshGenerator.GenerateRegionMesh: on a region with no cells, `ContainedCoords.Min()` (Editor/RegionMeshGenerator.cs:24) throws `InvalidOperationException` before any mesh exists. The model returns `None` in that case and nothing else. It is an open question whether `Min()` also throws on two or more cells: that depends on whether Unity's `Vector2Int` is comparable. That type is Unity's code, outside this repository, so the model assumes it is.
- MeshGenerator.GenerateRegionMesh: the `Mesh` object's normals, bounds and tangents are left out; only name, vertices, triangles and UVs are kept.
- Hash-set iteration order is left open. `Collections.Enumerate` picks the elements in an arbitrary order, so the contracts hold for every order.
- Regions.RegionData.Initialize: the new GUID is the parameter `newId`, since GUID generation is randomness.
- `Vector2Int.GetHashCode` and the regions' reference hash are parameters: both are Unity's code, outside this repository.
- Cell coordinates are unbounded integers. The 32-bit wrap-around of C# `int` in `Vector2Int` and `RectInt` arithmetic is not modelled: the neighbour offsets ±1, the rectangle size `xMax - xMin + 1`, and `cell.x * cellSize`. Only the two hash codes are modelled with 32-bit wrap-around, as `bv32`.
- Connectors.Equals: the `obj is not RegionConnector` branch, which returns false, is left out. The model compares connectors only with connectors.
- PainterLogic.ApplyToRegion requires the scene's region list to have no duplicate entries. The cell sets are then a function of the list.
- `GetConnectorList`'s replacement of a null list by an empty one is left out, because the model's list is never null. Unity's "destroyed object compares equal to null" is not modelled; a region reference is null or live.
- Connector records are values, so aliasing between a list element and another reference to the same record is not modelled. Turning a Door into a Window replaces the element at its index.
- `CellB` is never assigned by the core. The model always leaves it `None`, and the second clause of `OnRegionUpdated` works on whatever value a list holds.
- Connectors.HashCode: the closed form for a non-null RegionA, `8993 + 23·h(RegionA) + h(EdgeA)` in 32-bit arithmetic, is not stated. Only the null case and the dependence on the key alone are.
