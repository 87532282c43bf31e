/** The vertex editor's event loop (editor/test.cpp, main): left clicks add
    snapped vertices, and a click near the first vertex of a polygon with at
    least three vertices closes it into a new sector with a fresh id, linked
    to its neighbours. Return only prints the map and changes nothing. */
module VertexEditor {
  import opened Base
  import opened Geometry
  import opened Level
  import opened VertexSnap
  import opened VertexLink

  /** sectors, currentVertices, currentSectorId and sectorClosed. */
  datatype VState = VState(sectors: seq<VSector>, vertices: seq<Point>, nextId: int, closed: bool)

  datatype VEvent = LeftClick(x: int, y: int) | ReturnKey | Ignored

  function Initial(): VState
  {
    VState([], [], 0, false)
  }

  /** Every current vertex re-snapped against the existing sectors. */
  function Resnap(ss: seq<VSector>, vs: seq<Point>): (r: seq<Point>)
    ensures |r| == |vs|
    ensures forall i :: 0 <= i < |vs| ==> OnStep(r[i])
  {
    seq(|vs|, i requires 0 <= i < |vs| => SnapToExistingVertices(ss, vs[i].x, vs[i].y))
  }

  /** Closing the polygon: the walls of the re-snapped loop, id
      currentSectorId, heights 0 and 4, linked and then appended. */
  function CloseSector(st: VState): VState
  {
    CloseWith(st, Resnap(st.sectors, st.vertices))
  }

  /** The closing step for given (already re-snapped) vertices. */
  function CloseWith(st: VState, vs: seq<Point>): VState
  {
    var linked := LinkPortalsFixed(st.sectors, VSector(st.nextId, Loop(vs), 0.0, 4.0));
    VState(linked.sectors + [linked.added], [], st.nextId + 1, true)
  }

  function Click(st: VState, x: int, y: int): VState
  {
    if !st.closed then
      if NearFirstVertex(st.vertices, x, y) && |st.vertices| >= 3 then CloseSector(st)
      else st.(vertices := st.vertices + [SnapToExistingVertices(st.sectors, x, y)])
    else VState(st.sectors, [SnapToExistingVertices(st.sectors, x, y)], st.nextId, false)
  }

  function Step(st: VState, ev: VEvent): VState
  {
    match ev
    case LeftClick(x, y) => Click(st, x, y)
    case ReturnKey => st
    case Ignored => st
  }

  function Run(st: VState, evs: seq<VEvent>): VState
    decreases |evs|
  {
    if |evs| == 0 then st else Run(Step(st, evs[0]), evs[1..])
  }

  // The loop as the original program runs it: closing calls the original
  // linkPortals, whose erase loop can run past the end (None).

  function CloseWithAsWritten(st: VState, vs: seq<Point>): Option<VState>
  {
    match LinkPortals(st.sectors, VSector(st.nextId, Loop(vs), 0.0, 4.0))
    case None => None
    case Some(linked) => Some(VState(linked.sectors + [linked.added], [], st.nextId + 1, true))
  }

  function StepAsWritten(st: VState, ev: VEvent): Option<VState>
  {
    match ev
    case LeftClick(x, y) =>
      if !st.closed && NearFirstVertex(st.vertices, x, y) && |st.vertices| >= 3
      then CloseWithAsWritten(st, Resnap(st.sectors, st.vertices))
      else Some(Click(st, x, y))
    case ReturnKey => Some(st)
    case Ignored => Some(st)
  }

  /** None once some step is undefined. */
  function RunAsWritten(st: VState, evs: seq<VEvent>): Option<VState>
    decreases |evs|
  {
    if |evs| == 0 then Some(st)
    else
      match StepAsWritten(st, evs[0])
      case None => None
      case Some(st') => RunAsWritten(st', evs[1..])
  }

  /** A click adds a sector exactly when a polygon is open, has at least
      three vertices and the click is strictly within CLOSE_DIST of its
      first vertex; the new sector is last, carries currentSectorId, and the
      counter moves on. Any other click leaves the sectors alone and adds
      one snapped vertex (after clearing, if a sector was just closed). */
  lemma ClickClosesExactlyWhenNearFirst(st: VState, x: int, y: int)
    ensures var st' := Click(st, x, y);
            var closes := !st.closed && |st.vertices| >= 3 && NearFirstVertex(st.vertices, x, y);
            && (closes ==> st' == CloseSector(st))
            && (closes ==> |st'.sectors| == |st.sectors| + 1 && st'.sectors[|st.sectors|].id == st.nextId
                           && st'.nextId == st.nextId + 1 && st'.vertices == [] && st'.closed)
            && (!closes ==> st'.sectors == st.sectors && st'.nextId == st.nextId && !st'.closed
                            && |st'.vertices| >= 1
                            && st'.vertices[|st'.vertices| - 1] == SnapToExistingVertices(st.sectors, x, y))
            && (!closes && !st.closed ==> st'.vertices == st.vertices + [SnapToExistingVertices(st.sectors, x, y)])
            && (st.closed ==> st'.vertices == [SnapToExistingVertices(st.sectors, x, y)])
  {
  }

  /** The closed polygon's walls run vertex i to vertex i + 1 (mod n)
      through the re-snapped vertices, less the walls shared with existing
      sectors; what is left is solid. */
  lemma ClosedSectorIsTheLoop(st: VState, vs: seq<Point>)
    ensures var added := CloseWith(st, vs).sectors[|st.sectors|];
            && added.id == st.nextId
            && added.walls == Unmatched(Loop(vs), st.sectors, st.nextId)
            && added.floorHeight == 0.0 && added.ceilingHeight == 4.0
            && forall k :: 0 <= k < |added.walls| ==> !added.walls[k].isPortal && added.walls[k] in Loop(vs)
  {
    var linked := LinkPortalsFixed(st.sectors, VSector(st.nextId, Loop(vs), 0.0, 4.0));
    assert CloseWith(st, vs).sectors[|st.sectors|] == linked.added;
    UnmatchedSolid(Loop(vs), st.sectors, st.nextId);
  }

  /** Every wall kept from a list of solid walls is solid and from the list. */
  lemma UnmatchedSolid(nw: seq<Wall>, ss: seq<VSector>, newId: int)
    requires forall i :: 0 <= i < |nw| ==> !nw[i].isPortal
    ensures forall k :: 0 <= k < |Unmatched(nw, ss, newId)| ==>
      !Unmatched(nw, ss, newId)[k].isPortal && Unmatched(nw, ss, newId)[k] in nw
  {
    UnmatchedMeaning(nw, ss, newId);
  }

  // ---------------------------------------------------------------------
  // Invariants of every reachable state

  /** Ids strictly increase along the sector list and stay below the
      counter, so each new id is fresh. */
  predicate IdsFresh(st: VState)
  {
    && 0 <= st.nextId
    && (forall a, b :: 0 <= a < b < |st.sectors| ==> st.sectors[a].id < st.sectors[b].id)
    && (forall a :: 0 <= a < |st.sectors| ==> 0 <= st.sectors[a].id < st.nextId)
  }

  predicate HasId(ss: seq<VSector>, id: int)
  {
    exists s :: 0 <= s < |ss| && ss[s].id == id
  }

  /** Every portal leads to a sector that exists. */
  predicate PortalsNameSectors(ss: seq<VSector>)
  {
    forall s, j :: 0 <= s < |ss| && 0 <= j < |ss[s].walls| && ss[s].walls[j].isPortal ==>
      HasId(ss, ss[s].walls[j].adjoiningSector)
  }

  /** Every stored vertex and wall endpoint lies on the grid. */
  predicate OnGridState(st: VState)
  {
    && (forall k :: 0 <= k < |st.vertices| ==> OnStep(st.vertices[k]))
    && (forall s, j :: 0 <= s < |st.sectors| && 0 <= j < |st.sectors[s].walls| ==>
          OnStep(st.sectors[s].walls[j].p1) && OnStep(st.sectors[s].walls[j].p2))
  }

  predicate Invariant(st: VState)
  {
    IdsFresh(st) && PortalsNameSectors(st.sectors) && OnGridState(st)
  }

  predicate WallsOnStep(ws: seq<Wall>)
  {
    forall j :: 0 <= j < |ws| ==> OnStep(ws[j].p1) && OnStep(ws[j].p2)
  }

  /** Appending a linked sector with a fresh id, solid on-grid walls keeps
      ids fresh, portals pointing at sectors, and the walls on the grid. */
  lemma AppendLinkedKeepsInvariant(st: VState, sec: VSector)
    requires Invariant(st) && sec.id == st.nextId
    requires WallsOnStep(sec.walls)
    requires forall i :: 0 <= i < |sec.walls| ==> !sec.walls[i].isPortal
    ensures var linked := LinkPortalsFixed(st.sectors, sec);
            Invariant(VState(linked.sectors + [linked.added], [], st.nextId + 1, true))
  {
    var added := LinkPortalsFixed(st.sectors, sec).added;
    UnmatchedMeaning(sec.walls, st.sectors, sec.id);
    forall j | 0 <= j < |added.walls|
      ensures OnStep(added.walls[j].p1) && OnStep(added.walls[j].p2) && !added.walls[j].isPortal
    {
      var i :| 0 <= i < |sec.walls| && sec.walls[i] == added.walls[j];
    }
    AppendMarkedKeepsInvariant(st, sec, added);
  }

  /** The same for the original linkPortals, whenever it is defined: the
      new sector may keep a wall made a portal, and that portal leads to an
      existing sector. */
  lemma AppendAsWrittenKeepsInvariant(st: VState, sec: VSector)
    requires Invariant(st) && sec.id == st.nextId
    requires WallsOnStep(sec.walls)
    requires forall i :: 0 <= i < |sec.walls| ==> !sec.walls[i].isPortal
    ensures var r := LinkPortals(st.sectors, sec);
            r.Some? ==> Invariant(VState(r.value.sectors + [r.value.added], [], st.nextId + 1, true))
  {
    var r := LinkPortals(st.sectors, sec);
    LinkPortalsKeepsLoopWalls(st.sectors, sec);
    if r.Some? {
      var added := r.value.added;
      forall j | 0 <= j < |added.walls|
        ensures OnStep(added.walls[j].p1) && OnStep(added.walls[j].p2)
        ensures added.walls[j].isPortal ==> HasId(st.sectors, added.walls[j].adjoiningSector)
      {
        assert FromLoop(st.sectors, sec, added.walls[j]);
        var i :| 0 <= i < |sec.walls| && added.walls[j].p1 == sec.walls[i].p1 && added.walls[j].p2 == sec.walls[i].p2;
      }
      AppendMarkedKeepsInvariant(st, sec, added);
    }
  }

  /** Appending, after the existing sectors marked for sec, a sector with
      the fresh id whose walls are on the grid and whose portals lead to
      existing sectors keeps the invariant. */
  lemma AppendMarkedKeepsInvariant(st: VState, sec: VSector, added: VSector)
    requires Invariant(st) && sec.id == st.nextId && added.id == st.nextId
    requires WallsOnStep(added.walls)
    requires forall j :: 0 <= j < |added.walls| && added.walls[j].isPortal ==>
      HasId(st.sectors, added.walls[j].adjoiningSector)
    ensures Invariant(VState(MarkAll(st.sectors, sec.walls, sec.id) + [added], [], st.nextId + 1, true))
  {
    var ss' := MarkAll(st.sectors, sec.walls, sec.id) + [added];
    assert forall s :: 0 <= s < |st.sectors| ==> ss'[s] == MarkSector(st.sectors[s], sec.walls, sec.id);
    assert ss'[|st.sectors|] == added;
    AppendMarkedKeepsPortals(st, sec, added);
    AppendMarkedKeepsGrid(st, sec, added);
  }

  lemma AppendMarkedKeepsPortals(st: VState, sec: VSector, added: VSector)
    requires Invariant(st) && sec.id == st.nextId && added.id == st.nextId
    requires forall j :: 0 <= j < |added.walls| && added.walls[j].isPortal ==>
      HasId(st.sectors, added.walls[j].adjoiningSector)
    ensures PortalsNameSectors(MarkAll(st.sectors, sec.walls, sec.id) + [added])
  {
    var ss := st.sectors;
    var ss' := MarkAll(ss, sec.walls, sec.id) + [added];
    var n := |ss|;
    assert forall s :: 0 <= s < n ==> ss'[s] == MarkSector(ss[s], sec.walls, sec.id);
    assert ss'[n] == added;
    forall s, j | 0 <= s < |ss'| && 0 <= j < |ss'[s].walls| && ss'[s].walls[j].isPortal
      ensures HasId(ss', ss'[s].walls[j].adjoiningSector)
    {
      if s < n {
        var y := ss[s].walls[j];
        if ss[s].id != sec.id && MatchesSome(sec.walls, y) {
          assert ss'[s].walls[j].adjoiningSector == ss'[n].id;
        } else {
          assert ss'[s].walls[j] == y;
          var t :| 0 <= t < n && ss[t].id == y.adjoiningSector;
          assert ss'[t].id == ss[t].id;
        }
      } else {
        var t :| 0 <= t < n && ss[t].id == added.walls[j].adjoiningSector;
        assert ss'[t].id == ss[t].id;
      }
    }
  }

  lemma AppendMarkedKeepsGrid(st: VState, sec: VSector, added: VSector)
    requires OnGridState(st)
    requires WallsOnStep(added.walls)
    ensures var ss' := MarkAll(st.sectors, sec.walls, sec.id) + [added];
            forall s, j :: 0 <= s < |ss'| && 0 <= j < |ss'[s].walls| ==>
              OnStep(ss'[s].walls[j].p1) && OnStep(ss'[s].walls[j].p2)
  {
    var ss := st.sectors;
    var ss' := MarkAll(ss, sec.walls, sec.id) + [added];
    var n := |ss|;
    assert forall s :: 0 <= s < n ==> ss'[s] == MarkSector(ss[s], sec.walls, sec.id);
    forall s, j | 0 <= s < |ss'| && 0 <= j < |ss'[s].walls|
      ensures OnStep(ss'[s].walls[j].p1) && OnStep(ss'[s].walls[j].p2)
    {
      if s < n {
        assert ss'[s].walls[j].p1 == ss[s].walls[j].p1 && ss'[s].walls[j].p2 == ss[s].walls[j].p2;
      } else {
        assert ss'[s] == added;
      }
    }
  }

  /** A loop through grid points lies on the grid. */
  lemma LoopOnStep(vs: seq<Point>)
    requires forall i :: 0 <= i < |vs| ==> OnStep(vs[i])
    ensures WallsOnStep(Loop(vs))
  {
    forall j | 0 <= j < |vs|
      ensures OnStep(Loop(vs)[j].p1) && OnStep(Loop(vs)[j].p2)
    {
      assert OnStep(vs[j]) && OnStep(vs[(j + 1) % |vs|]);
    }
  }

  lemma CloseWithKeepsInvariant(st: VState, vs: seq<Point>)
    requires Invariant(st)
    requires forall i :: 0 <= i < |vs| ==> OnStep(vs[i])
    ensures Invariant(CloseWith(st, vs))
  {
    var sec := VSector(st.nextId, Loop(vs), 0.0, 4.0);
    LoopOnStep(vs);
    AppendLinkedKeepsInvariant(st, sec);
  }

  lemma CloseKeepsInvariant(st: VState)
    requires Invariant(st)
    ensures Invariant(CloseSector(st))
  {
    CloseWithKeepsInvariant(st, Resnap(st.sectors, st.vertices));
  }

  /** Every event keeps the invariant. */
  lemma StepKeepsInvariant(st: VState, ev: VEvent)
    requires Invariant(st)
    ensures Invariant(Step(st, ev))
  {
    match ev
    case LeftClick(x, y) =>
      if !st.closed && NearFirstVertex(st.vertices, x, y) && |st.vertices| >= 3 {
        CloseKeepsInvariant(st);
      }
    case ReturnKey =>
    case Ignored =>
  }

  lemma {:induction false} RunKeepsInvariant(st: VState, evs: seq<VEvent>)
    requires Invariant(st)
    decreases |evs|
    ensures Invariant(Run(st, evs))
  {
    if |evs| > 0 {
      StepKeepsInvariant(st, evs[0]);
      RunKeepsInvariant(Step(st, evs[0]), evs[1..]);
    }
  }

  /** From the empty editor, whatever the clicks: ids are distinct and
      increasing, every portal leads to an existing sector, and every
      coordinate is on the grid. */
  lemma ReachableStatesAreConsistent(evs: seq<VEvent>)
    ensures Invariant(Run(Initial(), evs))
  {
    RunKeepsInvariant(Initial(), evs);
  }

  // ---------------------------------------------------------------------
  // The same invariants for the loop as written

  /** Closing with the original linkPortals gives the corrected result
      whenever no new wall matches two existing walls. */
  lemma CloseWithAsWrittenAgrees(st: VState, vs: seq<Point>)
    requires AtMostOneMatch(st.sectors, VSector(st.nextId, Loop(vs), 0.0, 4.0))
    ensures CloseWithAsWritten(st, vs) == Some(CloseWith(st, vs))
  {
    LinkPortalsAgreesWhenMatchesAreUnique(st.sectors, VSector(st.nextId, Loop(vs), 0.0, 4.0));
  }

  /** A step that only adds a vertex is the same in both loops; a closing
      step is too whenever no new wall matches two existing walls. */
  lemma StepAsWrittenAgreesWhenMatchesAreUnique(st: VState, ev: VEvent)
    ensures var closes := ev.LeftClick? && !st.closed && |st.vertices| >= 3
                          && NearFirstVertex(st.vertices, ev.x, ev.y);
            var sec := VSector(st.nextId, Loop(Resnap(st.sectors, st.vertices)), 0.0, 4.0);
            (!closes || AtMostOneMatch(st.sectors, sec)) ==> StepAsWritten(st, ev) == Some(Step(st, ev))
  {
    var vs := Resnap(st.sectors, st.vertices);
    if ev.LeftClick? && !st.closed && |st.vertices| >= 3 && NearFirstVertex(st.vertices, ev.x, ev.y)
       && AtMostOneMatch(st.sectors, VSector(st.nextId, Loop(vs), 0.0, 4.0))
    {
      CloseWithAsWrittenAgrees(st, vs);
    }
  }

  /** Every event the original handles without undefined behaviour keeps
      the invariant. */
  lemma StepAsWrittenKeepsInvariant(st: VState, ev: VEvent)
    requires Invariant(st)
    ensures StepAsWritten(st, ev).Some? ==> Invariant(StepAsWritten(st, ev).value)
  {
    match ev
    case LeftClick(x, y) =>
      if !st.closed && NearFirstVertex(st.vertices, x, y) && |st.vertices| >= 3 {
        var vs := Resnap(st.sectors, st.vertices);
        LoopOnStep(vs);
        AppendAsWrittenKeepsInvariant(st, VSector(st.nextId, Loop(vs), 0.0, 4.0));
      } else {
        StepKeepsInvariant(st, ev);
      }
    case ReturnKey =>
    case Ignored =>
  }

  lemma {:induction false} RunAsWrittenKeepsInvariant(st: VState, evs: seq<VEvent>)
    requires Invariant(st)
    decreases |evs|
    ensures RunAsWritten(st, evs).Some? ==> Invariant(RunAsWritten(st, evs).value)
  {
    if |evs| > 0 {
      StepAsWrittenKeepsInvariant(st, evs[0]);
      match StepAsWritten(st, evs[0])
      case None =>
      case Some(st') => RunAsWrittenKeepsInvariant(st', evs[1..]);
    }
  }

  /** From the empty editor, every click sequence the original handles
      without undefined behaviour leaves ids distinct and increasing,
      portals leading to existing sectors, and coordinates on the grid. */
  lemma ReachableAsWrittenStatesAreConsistent(evs: seq<VEvent>)
    ensures RunAsWritten(Initial(), evs).Some? ==> Invariant(RunAsWritten(Initial(), evs).value)
  {
    RunAsWrittenKeepsInvariant(Initial(), evs);
  }
}
