/** Cascading sector deletion in the grid editor (editor/edit.cpp,
    deleteSector): the sector leaves the list and the adjoining-sector
    indices of the portals in the remaining sectors are rewritten. */
module SectorDelete {
  import opened Geometry
  import opened Level
  import opened EditWorld

  /** The old index of the sector found at slot i once sector id is gone. */
  function OldIndex(i: int, id: int): int
  {
    if i < id then i else i + 1
  }

  /** The slot that old sector k moves to once sector id is gone. */
  function NewIndex(k: int, id: int): int
  {
    if k < id then k else k - 1
  }

  /** Re-indexing is a bijection between the old indices other than id and
      the new slots. */
  lemma IndexMapsAreInverse(i: int, k: int, id: int)
    requires k != id
    ensures NewIndex(OldIndex(i, id), id) == i
    ensures OldIndex(NewIndex(k, id), id) == k
    ensures OldIndex(i, id) != id
  {
  }

  /** Applies f to every wall of a sector; heights are kept. */
  function MapWalls(sec: Sector, f: Wall -> Wall): (r: Sector)
    ensures |r.walls| == |sec.walls|
    ensures r.floorHeight == sec.floorHeight && r.ceilingHeight == sec.ceilingHeight
    ensures forall j :: 0 <= j < |sec.walls| ==> r.walls[j] == f(sec.walls[j])
  {
    sec.(walls := seq(|sec.walls|, j requires 0 <= j < |sec.walls| => f(sec.walls[j])))
  }

  function MapSectors(w: World, f: Wall -> Wall): (r: World)
    ensures |r| == |w|
    ensures forall i :: 0 <= i < |w| ==> r[i] == MapWalls(w[i], f)
  {
    seq(|w|, i requires 0 <= i < |w| => MapWalls(w[i], f))
  }

  /** vector::erase of sector id: the others keep their relative order. */
  function Erase(w: World, id: nat): (r: World)
    requires id < |w|
    ensures |r| == |w| - 1
    ensures forall i :: 0 <= i < |r| ==> r[i] == w[OldIndex(i, id)]
  {
    w[..id] + w[id + 1..]
  }

  /** First pass, over every sector before the erase: a portal into the
      deleted sector becomes solid, a portal above it moves down one. */
  function ClearOrShift(x: Wall, id: int): Wall
  {
    if x.isPortal && x.adjoiningSector == id then x.(isPortal := false, adjoiningSector := NoSector)
    else if x.isPortal && x.adjoiningSector > id then x.(adjoiningSector := x.adjoiningSector - 1)
    else x
  }

  /** Second pass, after the erase: a portal above id moves down again. */
  function ShiftDown(x: Wall, id: int): Wall
  {
    if x.isPortal && x.adjoiningSector > id then x.(adjoiningSector := x.adjoiningSector - 1) else x
  }

  /** The net effect of the two passes on one wall, case by case. */
  function NetRetarget(x: Wall, id: int): Wall
  {
    if !x.isPortal || x.adjoiningSector < id then x
    else if x.adjoiningSector == id then Solid(x.p1, x.p2)
    else if x.adjoiningSector == id + 1 then x.(adjoiningSector := id)
    else x.(adjoiningSector := x.adjoiningSector - 2)
  }

  /** deleteSector as written: out of range it does nothing; otherwise it
      runs the clearing pass, erases the sector and runs the shifting pass.
      The result holds the other sectors in order, with their heights and
      wall counts, each wall rewritten by the net effect of both passes. */
  function DeleteSector(w: World, id: int): (w': World)
    ensures !(0 <= id < |w|) ==> w' == w
    ensures 0 <= id < |w| ==> |w'| == |w| - 1
    ensures 0 <= id < |w| ==> forall i :: 0 <= i < |w'| ==>
      && |w'[i].walls| == |w[OldIndex(i, id)].walls|
      && w'[i].floorHeight == w[OldIndex(i, id)].floorHeight
      && w'[i].ceilingHeight == w[OldIndex(i, id)].ceilingHeight
    ensures 0 <= id < |w| ==> forall i, j :: 0 <= i < |w'| && 0 <= j < |w'[i].walls| ==>
      w'[i].walls[j] == NetRetarget(w[OldIndex(i, id)].walls[j], id)
  {
    if id < 0 || id >= |w| then w
    else
      var cleared := MapSectors(w, x => ClearOrShift(x, id));
      var erased := Erase(cleared, id);
      MapSectors(erased, x => ShiftDown(x, id))
  }

  /** Every portal names an existing sector. */
  predicate PortalsInRange(w: World)
  {
    forall i, j :: 0 <= i < |w| && 0 <= j < |w[i].walls| && w[i].walls[j].isPortal ==>
      0 <= w[i].walls[j].adjoiningSector < |w|
  }

  /** The double decrement never takes an in-range portal out of range:
      indices in [0, n) end in [0, n - 1). */
  lemma DeleteSectorKeepsPortalsInRange(w: World, id: int)
    requires PortalsInRange(w)
    ensures PortalsInRange(DeleteSector(w, id))
  {
    var w' := DeleteSector(w, id);
    if 0 <= id < |w| {
      forall i, j | 0 <= i < |w'| && 0 <= j < |w'[i].walls| && w'[i].walls[j].isPortal
        ensures 0 <= w'[i].walls[j].adjoiningSector < |w'|
      {
        var x := w[OldIndex(i, id)].walls[j];
        assert w'[i].walls[j] == NetRetarget(x, id);
        assert 0 <= x.adjoiningSector < |w|;
      }
    }
  }

  /** No portal leads into the deleted sector any more, read in old
      indices: every portal to id is solid afterwards. Walls that were not
      portals are unchanged. */
  lemma DeleteSectorClearsPortalsToIt(w: World, id: int, i: nat, j: nat)
    requires 0 <= id < |w| && i < |w| - 1 && j < |w[OldIndex(i, id)].walls|
    ensures var x := w[OldIndex(i, id)].walls[j];
            var y := DeleteSector(w, id)[i].walls[j];
            && (x.isPortal && x.adjoiningSector == id ==> y == Solid(x.p1, x.p2))
            && (!x.isPortal ==> y == x)
            && y.isPortal == (x.isPortal && x.adjoiningSector != id)
  {
  }

  // ---------------------------------------------------------------------
  // Finding: the second pass decrements a second time, so a portal to any
  // sector two or more above the deleted one ends up naming the wrong
  // sector.

  /** Three sectors; sectors 1 and 2 share a portal. */
  function ThreeSectors(): World
  {
    [ Sector([Solid(Point(64, 0), Point(96, 0))], 0.0, 4.0),
      Sector([Wall(Point(0, 0), Point(32, 0), true, 2)], 0.0, 4.0),
      Sector([Wall(Point(32, 0), Point(0, 0), true, 1)], 0.0, 4.0) ]
  }

  /** As written: deleting sector 0 leaves the old sector 1 (now slot 0)
      with a portal naming slot 0, itself, while its partner, now at slot
      1, still points back to it correctly. */
  lemma DeleteSectorMisroutesPortals(w: World)
    requires w == ThreeSectors()
    ensures var w' := DeleteSector(w, 0);
            && |w'| == 2
            && w'[0].walls[0] == Wall(Point(0, 0), Point(32, 0), true, 0)
            && w'[1].walls[0] == Wall(Point(32, 0), Point(0, 0), true, 0)
  {
    var w' := DeleteSector(w, 0);
    assert w'[0].walls[0] == NetRetarget(w[1].walls[0], 0);
    assert w'[1].walls[0] == NetRetarget(w[2].walls[0], 0);
  }

  /** In general the as-written rewrite of a portal to k >= id + 2 names
      the slot of old sector k - 1, not the slot of old sector k. */
  lemma DeleteSectorSkipsOneSector(w: World, id: int, i: nat, j: nat)
    requires 0 <= id < |w| && i < |w| - 1 && j < |w[OldIndex(i, id)].walls|
    requires w[OldIndex(i, id)].walls[j].isPortal
    requires w[OldIndex(i, id)].walls[j].adjoiningSector >= id + 2
    ensures var k := w[OldIndex(i, id)].walls[j].adjoiningSector;
            && DeleteSector(w, id)[i].walls[j].adjoiningSector == NewIndex(k - 1, id)
            && DeleteSector(w, id)[i].walls[j].adjoiningSector != NewIndex(k, id)
  {
  }

  /** A single decrement: what the re-indexing evidently means to do. */
  function Reindex(x: Wall, id: int): Wall
  {
    if x.isPortal && x.adjoiningSector == id then Solid(x.p1, x.p2)
    else if x.isPortal && x.adjoiningSector > id then x.(adjoiningSector := x.adjoiningSector - 1)
    else x
  }

  /** deleteSector with only the first pass kept. Every portal into the
      deleted sector becomes solid, and every other portal still leads to
      the same sector as before, now at its new slot. */
  function DeleteSectorFixed(w: World, id: int): (w': World)
    ensures !(0 <= id < |w|) ==> w' == w
    ensures 0 <= id < |w| ==> |w'| == |w| - 1
    ensures 0 <= id < |w| ==> forall i :: 0 <= i < |w'| ==>
      && |w'[i].walls| == |w[OldIndex(i, id)].walls|
      && w'[i].floorHeight == w[OldIndex(i, id)].floorHeight
      && w'[i].ceilingHeight == w[OldIndex(i, id)].ceilingHeight
    ensures 0 <= id < |w| ==> forall i, j :: 0 <= i < |w'| && 0 <= j < |w'[i].walls| ==>
      var x := w[OldIndex(i, id)].walls[j];
      && (x.isPortal && x.adjoiningSector == id ==> w'[i].walls[j] == Solid(x.p1, x.p2))
      && (x.isPortal && x.adjoiningSector != id ==>
            w'[i].walls[j] == x.(adjoiningSector := NewIndex(x.adjoiningSector, id)))
      && (!x.isPortal ==> w'[i].walls[j] == x)
  {
    if id < 0 || id >= |w| then w
    else MapSectors(Erase(w, id), x => Reindex(x, id))
  }

  /** Corrected: a surviving portal leads to the sector it led to before,
      found at its new slot, so no portal is misrouted. */
  lemma DeleteSectorFixedKeepsTargets(w: World, id: int, i: nat, j: nat)
    requires 0 <= id < |w| && i < |w| - 1 && j < |w[OldIndex(i, id)].walls|
    requires PortalsInRange(w)
    ensures var x := w[OldIndex(i, id)].walls[j];
            var y := DeleteSectorFixed(w, id)[i].walls[j];
            y.isPortal ==>
              && 0 <= y.adjoiningSector < |w| - 1
              && OldIndex(y.adjoiningSector, id) == x.adjoiningSector
              && DeleteSectorFixed(w, id)[y.adjoiningSector] == MapWalls(w[x.adjoiningSector], z => Reindex(z, id))
  {
    var x := w[OldIndex(i, id)].walls[j];
    var w' := DeleteSectorFixed(w, id);
    var y := w'[i].walls[j];
    if y.isPortal {
      assert x.isPortal && x.adjoiningSector != id;
      IndexMapsAreInverse(0, x.adjoiningSector, id);
      assert w' == MapSectors(Erase(w, id), z => Reindex(z, id));
    }
  }

  /** The corrected deletion keeps portal indices in range too. */
  lemma DeleteSectorFixedKeepsPortalsInRange(w: World, id: int)
    requires PortalsInRange(w)
    ensures PortalsInRange(DeleteSectorFixed(w, id))
  {
    var w' := DeleteSectorFixed(w, id);
    if 0 <= id < |w| {
      forall i, j | 0 <= i < |w'| && 0 <= j < |w'[i].walls| && w'[i].walls[j].isPortal
        ensures 0 <= w'[i].walls[j].adjoiningSector < |w'|
      {
        var x := w[OldIndex(i, id)].walls[j];
        assert 0 <= x.adjoiningSector < |w|;
      }
    }
  }
}
