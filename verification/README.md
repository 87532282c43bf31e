# Sector map editors: a Dafny model

The repository holds two small level editors for a sector-and-portal
renderer. A level is a list of sectors. Each sector is a closed loop of walls.
A wall is either solid or a portal into another sector, named by its index
(`adjoiningSector`).

- `editor/edit.cpp`, the grid editor:
  - snaps clicks to a 32-unit grid and closes a polygon into a sector;
  - right-click turns a wall into a portal, auto-linking it with an
    overlapping wall of another sector, or unlinks a portal on both sides;
  - deletes the hovered sector and re-indexes the remaining portals;
  - saves and loads a line-oriented map file in grid units.
- `editor/test.cpp`, the vertex editor:
  - snaps clicks to a 5-unit grid and onto nearby existing wall endpoints;
  - closes a polygon by clicking near its first vertex;
  - links the new sector's walls with identical walls of existing sectors,
    removing the duplicates from the new sector.

Every coordinate in both editors is an integer, or an integer multiple of
the grid. The model therefore uses unbounded integers and no floating point.
The modules follow the two programs:

| module | file | models |
|---|---|---|
| `Base` | base.dfy | `Option`, `Min`, `Max`, `Abs` |
| `Geometry` | geometry.dfy | `cross`, `segmentsOverlap`, lexicographic point order |
| `Level` | level.dfy | the wall record, `wallsExactlyMatch`, polygon to wall loop |
| `EditWorld` | edit_world.dfy | the world, `gridSnap`, wall handles, erase+insert as a splice, `findWallAt`, `findHoveredSector` |
| `PortalLink` | portal_link.dfy | `tryAutoLinkPortal`, the right-click link/unlink toggle |
| `SectorDelete` | sector_delete.dfy | `deleteSector` |
| `MapFormat` | map_format.dfy | `saveMap`, `loadMap` |
| `GridEditor` | grid_editor.dfy | the grid editor's event loop and its invariants |
| `VertexSnap` | vertex_snap.dfy | `snapToGrid`, `snapVertexToGrid`, `nearFirstVertex`, `snapToExistingVertices` |
| `VertexLink` | vertex_link.dfy | `linkPortals` |
| `VertexEditor` | vertex_editor.dfy | the vertex editor's event loop and its invariants |

Wall pointers become `(sector, wall)` index pairs (`EditWorld.WallRef`).
`vector::erase` followed by `vector::insert` is a sequence splice.
Whether the mouse is within `HIT_RADIUS` of a wall is a predicate carried
by the event. Clicks, keys and file contents are parameters of the model.

Two places where the code's own messages and comments suggest more than
the code does; the model follows the code:

- **Failed load.** `main` reports "Starting empty editor" when `loadMap`
  fails (edit.cpp:333). But `loadMap` clears the sectors before reading
  (edit.cpp:110) and keeps every sector read before the failure, so the
  editor starts with those. `MapFormat.LoadMap` and `GridEditor.Start` do
  the same.
- **Sector deletion.** The comments at edit.cpp:280, :287 and :296 describe
  clearing the portals into the deleted sector and shifting the higher
  indices down by one, so that each portal keeps leading to the same
  sector. The first pass already shifts them and the second shifts them
  again, so a portal into a sector two or more above the deleted one ends
  up naming the wrong sector. This is finding 1 below.

The corrected versions from the findings below are used in the event
loops:

- `GridEditor` takes a `Build` (`AsWritten` or `Corrected`). It chooses both
  the overlap bounds of the auto-linker and the re-indexing of
  `deleteSector`. Its invariants are proved for both builds.
- `VertexEditor` has two loops. `Step` and `Run` close sectors with the
  corrected `linkPortals` (`VertexLink.LinkPortalsFixed`). `StepAsWritten`
  and `RunAsWritten` call the original (`VertexLink.LinkPortals`), whose
  erase loop can run past the end; that undefined behaviour is `None`.
  The invariants are proved for both loops, for the original whenever
  every step is defined. `VertexEditor.StepAsWrittenAgreesWhenMatchesAreUnique`
  proves that the two loops take the same step whenever no new wall matches
  two existing walls.

## Model

| member | source | states |
|---|---|---|
| Geometry.CrossReversed | editor/edit.cpp:186-188 | reversing the reference segment negates the cross product |
| Geometry.SpansMeetIffCommonPoint | editor/edit.cpp:194-195 | the per-axis "not strictly apart" test holds exactly when some integer lies in both spans |
| Geometry.SegmentsOverlapMeaning | editor/edit.cpp:190-197 | two segments overlap iff both ends of the second have zero cross product against the first and the two segments share an x value and a y value |
| Geometry.SegmentsOverlapIgnoresDirection | editor/edit.cpp:190-197 | the overlap test gives the same answer when either segment is reversed |
| Geometry.Ordered | editor/edit.cpp:219-221 | the normalised endpoints are the two given points, the lexicographically smaller one first |
| Level.WallsExactlyMatchIsOrderFree | editor/edit.cpp:71-74 | exact wall matching is reflexive, symmetric and transitive, and ignores direction |
| Level.LoopIsClosed | editor/edit.cpp:375-384 | the walls built from a polygon start at its points in order and each ends where the next (cyclically) begins |
| EditWorld.TruncDiv | editor/edit.cpp:37-38 | C++ division truncates toward zero: the remainder has the dividend's sign and is smaller than the divisor |
| EditWorld.SnapCoord | editor/edit.cpp:35-40 | a snapped coordinate is a multiple of GRID_SIZE, at most v and within one step below it for v >= 0, at least v and within one step above it for v < 0 |
| EditWorld.SnapCoordUnique | editor/edit.cpp:35-40 | the truncated grid multiple is the only multiple within one step of v on the zero side |
| EditWorld.GridSnapIdempotent | editor/edit.cpp:35-40 | gridSnap lands on the grid and snapping a snapped point changes nothing |
| EditWorld.Splice | editor/edit.cpp:235-241 | erase at k then insert at k keeps the walls before k, places the pieces at k, and keeps the walls after k in order |
| EditWorld.FindWallAt | editor/edit.cpp:173-184 | the wall found is hit and no wall earlier in (sector, wall) order is; no result means no wall anywhere is hit |
| EditWorld.FindHoveredSector | editor/edit.cpp:264-275 | the result is -1 or a sector index; that sector has a hit wall and no earlier sector has one; -1 means no wall is hit |
| EditWorld.HoveredIsSectorOfPickedWall | editor/edit.cpp:264-275 | the hovered sector is -1 exactly when no wall is picked, and otherwise the sector of the wall a right-click picks |
| PortalLink.Pieces | editor/edit.cpp:226-232 | one to three walls that run from a1 to a2 without gaps: a solid lead-in unless a1 is the overlap start, the portal from start to end, a solid tail unless a2 is the overlap end |
| PortalLink.FindLinkTarget | editor/edit.cpp:203-214 | the chosen wall is in another sector, not a portal, and overlaps the source wall, and no earlier wall in (sector, wall) order qualifies; no result means no wall qualifies |
| PortalLink.UniqueCandidateIsFound | editor/edit.cpp:203-214 | when exactly one wall qualifies, the search picks it |
| PortalLink.LinkPair | editor/edit.cpp:216-253 | both walls are replaced in place by their pieces, no other sector changes, heights are kept, and the two middle pieces form a reciprocal portal pair on the same segment from the overlap start to the overlap end |
| PortalLink.TryAutoLinkPortal | editor/edit.cpp:200-260 | with no candidate the world is unchanged; otherwise only the two sectors involved change, each grows by at most two walls, and they are joined by a reciprocal portal pair |
| PortalLink.FullSharedEdgeLinksWithoutStubs | editor/edit.cpp:220-232 | a wall that coincides with its partner becomes a portal in place on both sides, with no leftover pieces |
| PortalLink.PartialOverlapSplitsInTwo | editor/edit.cpp:220-253 | a horizontal wall sharing only its right part splits into a solid piece and a portal, and the contained neighbour becomes one portal |
| PortalLink.UnlinkPortal | editor/edit.cpp:356-369 | the clicked wall becomes solid; in the linked sector, when its index is valid, every portal back to the clicked sector becomes solid; nothing else changes and no wall count changes |
| PortalLink.UnmatchedToggleLeavesPendingPortal | editor/edit.cpp:353-355 | a solid wall with no partner is left flagged as a portal with its old adjoining index |
| PortalLink.ComponentwiseBoundsLeaveTheLine | editor/edit.cpp:223-224 | as written, two overlapping walls of slope -1 get a portal piece starting at (32,64), which is off the source wall's line |
| PortalLink.LoneNeighbourLink | editor/edit.cpp:200-260 | in a two-sector world whose walls are link candidates, the auto-linker pairs them and sector 0 holds exactly the split |
| PortalLink.LexicographicBoundsStayOnTheLine | editor/edit.cpp:223-224 | with lexicographic bounds the portal ends lie on the source wall's line and inside both walls' ranges |
| PortalLink.LexicographicSlopedSplit | editor/edit.cpp:223-232 | corrected, the sloped example's portal is the really shared part (32,32)-(64,0) |
| PortalLink.TryAutoLinkPortalFixed | editor/edit.cpp:200-260 | corrected auto-link: unchanged with no candidate; otherwise only the two sectors change and a portal pair lies on the source wall's line |
| SectorDelete.IndexMapsAreInverse | editor/edit.cpp:294 | after erasing sector id, old and new slot numbers correspond one to one |
| SectorDelete.Erase | editor/edit.cpp:294 | erasing a sector drops one and keeps the others in order |
| SectorDelete.DeleteSector | editor/edit.cpp:277-306 | out of range: no change; otherwise one sector fewer, the others in order with their heights and wall counts, each wall rewritten by the net effect of both passes |
| SectorDelete.DeleteSectorKeepsPortalsInRange | editor/edit.cpp:281-303 | if every portal named an existing sector before, every portal does so after deletion |
| SectorDelete.DeleteSectorClearsPortalsToIt | editor/edit.cpp:281-291 | portals into the deleted sector become solid, solid walls are unchanged, other portals stay portals |
| SectorDelete.DeleteSectorMisroutesPortals | editor/edit.cpp:296-303 | as written, deleting sector 0 of three leaves old sector 1 with a portal naming itself |
| SectorDelete.DeleteSectorSkipsOneSector | editor/edit.cpp:281-303 | as written, a portal to k >= id + 2 ends at the new slot of old sector k - 1, not of k |
| SectorDelete.DeleteSectorFixed | editor/edit.cpp:277-306 | single re-indexing: portals into the deleted sector become solid, other portals name the new slot of their old target, solid walls are unchanged |
| SectorDelete.DeleteSectorFixedKeepsTargets | editor/edit.cpp:281-294 | corrected, a surviving portal leads to the same sector as before, now at its new slot |
| SectorDelete.DeleteSectorFixedKeepsPortalsInRange | editor/edit.cpp:281-294 | corrected deletion keeps every portal naming an existing sector |
| MapFormat.ParseHeader | editor/edit.cpp:116-122 | in the token model, a header reads iff the line has at least four tokens and the first two are integers; the wall count is the second token |
| MapFormat.HeightToken | editor/edit.cpp:86-87 | a height is written as an integer token exactly when it is whole, and reading the token gives the height back |
| MapFormat.ParseWall | editor/edit.cpp:133-144 | a wall line reads iff it starts with six integers; the coordinates read back are grid multiples |
| MapFormat.ParseWalls | editor/edit.cpp:128-146 | the walls read iff every line reads, one wall per line in order |
| MapFormat.ParseFrom | editor/edit.cpp:112-150 | loading only ever appends to the sectors read so far, at most one sector per line |
| MapFormat.LoadMap | editor/edit.cpp:103-155 | a file that cannot be opened leaves the world and reports failure; otherwise at most one sector per line is read |
| MapFormat.WallLineRoundTrip | editor/edit.cpp:89-96 | a written wall line reads back as the wall with its coordinates truncated to the grid |
| MapFormat.SectorBlockRoundTrip | editor/edit.cpp:84-98 | reading a written sector block adds that sector, quantized, and continues after the blank line |
| MapFormat.SaveFromRoundTrip | editor/edit.cpp:84-98 | reading the blocks written for sectors i.. adds them all, quantized, and continues with whatever follows |
| MapFormat.SaveLoadRoundTrip | editor/edit.cpp:77-155 | loading a saved world succeeds and gives every sector back in order, with heights, portal flags and adjoining indices, coordinates truncated to the grid |
| MapFormat.QuantizeAligned | editor/edit.cpp:141-142 | quantizing a world whose coordinates are grid multiples changes nothing |
| MapFormat.SaveLoadAligned | editor/edit.cpp:84-147 | for a grid-aligned world, load after save gives back exactly the same world |
| MapFormat.EmptyLinesSkipped | editor/edit.cpp:113-114 | empty lines before a header are skipped |
| MapFormat.HeaderIdIgnored | editor/edit.cpp:116-126 | the sector id in a header plays no part in loading |
| MapFormat.SeparatorIgnored | editor/edit.cpp:149 | the line after a sector's walls is consumed whatever it contains |
| MapFormat.BlankHeaderFailsAfterSavedPrefix | editor/edit.cpp:110-122 | a line of blanks where a header belongs fails the load, keeping the sectors before it and nothing of the prior world |
| MapFormat.TruncatedSectorFails | editor/edit.cpp:128-132 | a header announcing more walls than remain fails the load and keeps the earlier sectors |
| MapFormat.MalformedWallFails | editor/edit.cpp:133-139 | a malformed wall line fails the load and keeps only the earlier sectors |
| GridEditor.ClosePolygon | editor/edit.cpp:375-385 | with more than two points a sector with the loop's walls and heights 0 and 4 is appended and the points cleared; otherwise nothing changes |
| GridEditor.StepKeepsGrid | editor/edit.cpp:340-400 | in both builds every event keeps every wall endpoint and pending point on the 32-unit grid |
| GridEditor.RunKeepsGrid | editor/edit.cpp:340-400 | any event sequence keeps the grid invariant |
| GridEditor.ParseFromAligned | editor/edit.cpp:128-147 | every sector loadMap builds lies on the grid, whatever the file holds |
| GridEditor.StartOnGrid | editor/edit.cpp:331-335 | the state after startup satisfies the grid invariant |
| GridEditor.ReachableStatesSaveExactly | editor/edit.cpp:340-400 | in every reachable state, saving and loading back gives exactly the current world |
| GridEditor.RightClickKeepsLinks | editor/edit.cpp:350-372 | a right-click keeps every portal naming an existing sector or the pending -1, and every solid wall at -1 |
| GridEditor.DeleteKeepsLinks | editor/edit.cpp:392-399 | deleting a sector keeps that link invariant, in both builds |
| GridEditor.StepKeepsLinks | editor/edit.cpp:340-400 | every event keeps the link invariant, in both builds |
| GridEditor.RunKeepsLinks | editor/edit.cpp:340-400 | any event sequence keeps the link invariant |
| GridEditor.ReachableFromEmptyStartStayLinked | editor/edit.cpp:331-400 | started without a map file, every state the editor reaches has its portals in range or pending and its solid walls at -1 |
| GridEditor.LoadedPortalMayDangle | editor/edit.cpp:133-145 | loadMap accepts a portal into a sector the file does not hold, so a loaded world need not be well linked |
| VertexSnap.SnapToGrid | editor/test.cpp:113-115 | the result is a multiple of 5 strictly within half a step of v, the only such multiple |
| VertexSnap.SnapToGridIsNearest | editor/test.cpp:113-115 | no multiple of 5 is closer to v than the snapped value, and every other multiple is strictly farther |
| VertexSnap.SnapToGridUnique | editor/test.cpp:113-115 | a multiple of 5 strictly within half a step of v is the snapped value |
| VertexSnap.SnapToGridIdempotent | editor/test.cpp:113-115 | multiples of 5 are fixed points, so snapping twice equals snapping once |
| VertexSnap.SnapVertex | editor/test.cpp:118-120 | both coordinates land on the grid, each within half a step |
| VertexSnap.SnapVertexIdempotent | editor/test.cpp:118-120 | snapping a snapped vertex changes nothing, and grid vertices are fixed |
| VertexSnap.NearFirstVertexBounds | editor/test.cpp:41-45 | false with no vertices; a near click is less than CLOSE_DIST away on each axis; one within 7 on both axes is near |
| VertexSnap.WallEndsMeaning | editor/test.cpp:125-127 | the scan visits endpoint k % 2 of wall k / 2 at step k: p1 before p2, walls in order |
| VertexSnap.FirstNear | editor/test.cpp:123-134 | the reference search finds the first entry within SNAP_DIST, or reports that none is |
| VertexSnap.FirstNearAppend | editor/test.cpp:124-132 | searching a concatenation searches the first part, then the second |
| VertexSnap.ScanWalls | editor/test.cpp:125-131 | the loop over one sector's walls finds the first near endpoint of its endpoint list |
| VertexSnap.ScanSectors | editor/test.cpp:124-132 | the loop over sectors finds the first near endpoint of all sectors' endpoints in scan order |
| VertexSnap.SnapToExistingVertices | editor/test.cpp:123-134 | the result is on the grid and is the first existing endpoint strictly within SNAP_DIST of the snapped click, or the snapped click when none is |
| VertexSnap.EndpointsOnStep | editor/test.cpp:126-127 | every snapped endpoint lies on the grid |
| VertexLink.SameSegmentIsOrderFree | editor/test.cpp:154-158 | the segment match holds for a wall and itself, for a wall and its reversal, and is symmetric |
| VertexLink.CountInMeaning | editor/test.cpp:144-160 | a wall's match count against a wall list is zero iff no wall of the list matches |
| VertexLink.MatchesMeaning | editor/test.cpp:140-160 | the total match count is zero iff no wall of another sector matches |
| VertexLink.MarkNewWall | editor/test.cpp:164-165 | a matched new wall becomes a portal on the same segment; an unmatched one is untouched |
| VertexLink.SortDescending | editor/test.cpp:174 | the removal list is sorted in descending order and is a permutation of the pushed indices |
| VertexLink.EraseAll | editor/test.cpp:175-177 | each erase shortens the list by one; indices in range for each step make the loop well defined |
| VertexLink.LinkPortals | editor/test.cpp:137-178 | as written: the existing sectors are marked, the new sector keeps its id, and its wall count drops by the number of pushes |
| VertexLink.EraseDescending | editor/test.cpp:174-177 | erasing strictly descending in-range indices one by one removes exactly those positions, keeping the rest in order |
| VertexLink.UnmatchedMeaning | editor/test.cpp:164-177 | the kept walls are new walls that match nothing, and every new wall that matches nothing is kept |
| VertexLink.LinkPortalsFixedMarksExisting | editor/test.cpp:140-168 | every existing wall matching a new wall becomes a portal into the new sector, other walls are unchanged, no existing sector gains or loses walls, and the new sector keeps exactly the new walls that match nothing |
| VertexLink.PushesCount | editor/test.cpp:140-168 | the removal list holds index i exactly as often as new wall i matches an existing wall |
| VertexLink.LinkPortalsAgreesWhenMatchesAreUnique | editor/test.cpp:164-177 | when no new wall matches two existing walls, the original yields exactly the corrected result: the unmatched walls in order |
| VertexLink.LinkPortalsDropsUnmatchedWall | editor/test.cpp:167-177 | as written, a new wall matching a doubled edge has its index erased twice, which also drops the unmatched wall after it; the corrected version keeps that wall |
| VertexLink.EraseAllKeepsFrom | editor/test.cpp:175-177 | the erase loop only removes: every wall left was in the list |
| VertexLink.LastMatchIdNamesSector | editor/test.cpp:139-168 | a new wall that matched is left pointing at an existing sector other than the new one |
| VertexLink.LinkPortalsKeepsLoopWalls | editor/test.cpp:137-178 | whenever the original is defined, it marks the existing sectors as the corrected version does, keeps the new sector's id and heights, and leaves it only walls of its loop, each unchanged or made a portal into another existing sector |
| VertexEditor.Resnap | editor/test.cpp:237-240 | re-snapping keeps the number of vertices and puts every one on the grid |
| VertexEditor.ClickClosesExactlyWhenNearFirst | editor/test.cpp:233-276 | a click closes a sector exactly when a polygon is open, has at least three vertices and the click is near its first vertex; otherwise it adds one snapped vertex, after clearing if a sector was just closed |
| VertexEditor.ClosedSectorIsTheLoop | editor/test.cpp:242-261 | the new sector is last, has the current id and heights 0 and 4, and keeps the unmatched walls of the loop, all solid |
| VertexEditor.StepKeepsInvariant | editor/test.cpp:229-283 | in the loop with the corrected linkPortals, every event keeps ids increasing and below the counter, portals naming existing sectors, and coordinates on the grid |
| VertexEditor.RunKeepsInvariant | editor/test.cpp:229-283 | in the loop with the corrected linkPortals, any event sequence keeps the invariant |
| VertexEditor.ReachableStatesAreConsistent | editor/test.cpp:229-283 | in the loop with the corrected linkPortals, from the empty editor, whatever the clicks, ids are distinct and increasing, portals lead to existing sectors and coordinates are on the grid |
| VertexEditor.CloseWithAsWrittenAgrees | editor/test.cpp:242-261 | closing with the original linkPortals gives the corrected result whenever no new wall matches two existing walls |
| VertexEditor.StepAsWrittenAgreesWhenMatchesAreUnique | editor/test.cpp:229-283 | a step that does not close is the same in both loops, and so is a closing step when no new wall matches two existing walls |
| VertexEditor.StepAsWrittenKeepsInvariant | editor/test.cpp:229-283 | every event the original handles without undefined behaviour keeps ids increasing and below the counter, portals naming existing sectors, and coordinates on the grid |
| VertexEditor.RunAsWrittenKeepsInvariant | editor/test.cpp:229-283 | any event sequence the original handles without undefined behaviour keeps the invariant |
| VertexEditor.ReachableAsWrittenStatesAreConsistent | editor/test.cpp:229-283 | from the empty editor, every click sequence the original handles without undefined behaviour leaves ids distinct and increasing, portals leading to existing sectors and coordinates on the grid |

## Left out

- Rendering, windows, fonts, event polling, camera movement and all output
  messages are not modelled. The renderer's own files (helpers.cpp,
  helpers.h, main.cpp) are floating-point ray marching and are not part of
  this model.
- `distanceToSegment` and `HIT_RADIUS` are floating-point. Whether the mouse
  is near a wall is a predicate of the event. Only the first-match order and
  the index ranges are proved.
- Floor and ceiling heights are `real` values that are only copied. The map
  file carries a whole height as an integer token and any other as a number
  token (`MapFormat.HeightToken`). The digits `operator<<` chooses for a
  `float` (six significant digits by default) are not modelled, so the
  round trip assumes each height reads back as written.
- MapFormat.ParseWall: the file is a sequence of lines of tokens. A
  non-integer number where an integer is expected makes the line malformed;
  how a stream would read the integer part of such a token is not modelled.
  Files written by `saveMap` never contain one.
- MapFormat.ParseHeader: the same token model. A number with a fraction in
  the id or wall-count field fails the header. A stream reads its integer
  part and goes on with the fraction, so "0 3.5 0 4" reads 3 walls with
  heights .5 and 0. Files written by `saveMap` never contain one.
- Opening and naming files (`currentMapFilename`, the command-line argument)
  are outside the model. An unopenable file is `None`. The save key changes
  no state, since `saveMap`'s output is `MapFormat.SaveMap` of the current
  sectors.
- C++ `int` is 32-bit; overflow of coordinates, indices and ids is not
  modelled. The inputs are window coordinates and small counts.
- VertexSnap.SnapToGrid: `snapToGrid` takes the grid size as a parameter.
  The model fixes it to the only value used (5). The `float` quotient v / 5
  need not be exact, but for an integer v it is at least 0.1 away from a
  half, far more than the rounding error at window-sized coordinates. So
  `std::round` returns the exact nearest integer, and how it rounds halves
  never matters.
- The vertex editor keeps `float` coordinates. The model uses integers:
  mouse positions are integers and every stored coordinate is a multiple of
  5. The 0.001 tolerance of the segment match is therefore exact equality,
  and `dist(...) < K` is the squared comparison.
- VertexEditor.ClosedSectorIsTheLoop: closing uses the corrected
  `linkPortals` (finding 3). The original agrees with it whenever no new
  wall matches two existing walls (`VertexLink.LinkPortalsAgreesWhenMatchesAreUnique`).
  In the other case the original's erase loop can also run past the end,
  which is undefined behaviour (`None` in `VertexLink.LinkPortals`).
- VertexEditor.StepKeepsInvariant: stated for the loop with the corrected
  `linkPortals`. For the original loop see `VertexEditor.StepAsWrittenKeepsInvariant`.
- VertexEditor.RunKeepsInvariant: stated for the loop with the corrected
  `linkPortals`. For the original loop see `VertexEditor.RunAsWrittenKeepsInvariant`.
- VertexEditor.ReachableStatesAreConsistent: stated for the loop with the
  corrected `linkPortals`. In the original, a doubled edge can make closing
  drop an unmatched wall or erase past the end (finding 3). For the
  original loop see `VertexEditor.ReachableAsWrittenStatesAreConsistent`.
- VertexEditor.ReachableAsWrittenStatesAreConsistent: promises nothing
  about a click sequence on which the original's erase loop runs past the
  end. That is undefined behaviour in C++, so there is no state to speak of.
  The invariant also does not say that a wall the original keeps is solid.
- GridEditor.RunKeepsLinks: the link invariant is preserved, not
  established. `loadMap` does not check adjoining indices
  (`GridEditor.LoadedPortalMayDangle`), so a loaded file may name sectors
  that do not exist. Started without a file, the editor is well linked
  throughout (`GridEditor.ReachableFromEmptyStartStayLinked`).
- The vertex editor's Return key only prints the map (`outputMap`). It
  changes no state and its text format is not modelled.
- Quitting, Escape and every other ignored event leave the state unchanged
  (`Ignored`).

## Findings

| source | as written | input that shows it | evidently intended | confidence | as-written member | corrected member |
|---|---|---|---|---|---|---|
| editor/edit.cpp:296-303 | after the first pass already decremented portals above the deleted index, the second pass decrements them again | three sectors, sectors 1 and 2 joined by a portal pair, delete sector 0: old sector 1 (now slot 0) ends with a portal naming slot 0, itself | each surviving portal is decremented once, so it still leads to the same sector | high (not executed) | SectorDelete.DeleteSectorMisroutesPortals | SectorDelete.DeleteSectorFixedKeepsTargets |
| editor/edit.cpp:223-224 | the overlap is bounded by the componentwise max of the lower ends and min of the upper ends | sector 0 wall (0,64)-(64,0), sector 1 wall (32,32)-(96,-32): the portal piece starts at (32,64), which is not on either wall | the overlap runs from the lexicographically larger lower end to the smaller upper end, on the shared line | high (not executed) | PortalLink.ComponentwiseBoundsLeaveTheLine | PortalLink.LexicographicBoundsStayOnTheLine |
| editor/test.cpp:167-177 | index i is pushed once per matching existing wall, so a new wall matching two existing walls is erased twice | an existing sector with walls (0,0)-(10,0), (10,0)-(0,0), (0,0)-(0,0); closing the triangle (0,0),(10,0),(10,10) erases index 0 twice, dropping the unmatched wall (10,0)-(10,10) | each matched new wall is removed once and unmatched walls stay | high (not executed) | VertexLink.LinkPortalsDropsUnmatchedWall | VertexLink.LinkPortalsFixedMarksExisting |
