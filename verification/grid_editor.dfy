/** The grid editor's event loop (editor/edit.cpp, main): the world plus the
    polygon being drawn, and what each mouse button and key does to them.
    Rendering, the window and the file system are outside the model; the
    "mouse is near this wall" test is the event's own predicate. */
module GridEditor {
  import opened Base
  import opened Geometry
  import opened Level
  import opened EditWorld
  import opened PortalLink
  import opened SectorDelete
  import opened MapFormat

  /** The editor as written, or with the two corrections applied (the
      lexicographic overlap bounds and the single re-indexing pass). */
  datatype Build = AsWritten | Corrected

  datatype State = State(sectors: World, pending: seq<Point>)

  /** The events the loop reacts to. Quitting, Escape and the events the
      loop ignores are Ignored; the window closing is not modelled. */
  datatype Event =
    | LeftButton(x: int, y: int)
    | RightButton(near: Wall -> bool)
    | ReturnKey
    | DeleteKey(near: Wall -> bool)
    | SaveKey
    | Ignored

  function RuleOf(b: Build): BoundsRule
  {
    match b
    case AsWritten => Componentwise
    case Corrected => Lexicographic
  }

  function Delete(b: Build, w: World, id: int): World
  {
    match b
    case AsWritten => DeleteSector(w, id)
    case Corrected => DeleteSectorFixed(w, id)
  }

  /** Return with more than two points closes the polygon into a new
      sector with default heights 0 and 4. */
  function ClosePolygon(s: State): (s': State)
    ensures |s.pending| > 2 ==>
      && s'.pending == []
      && |s'.sectors| == |s.sectors| + 1
      && s'.sectors[..|s.sectors|] == s.sectors
      && s'.sectors[|s.sectors|] == Sector(Loop(s.pending), 0.0, 4.0)
    ensures |s.pending| <= 2 ==> s' == s
  {
    if |s.pending| > 2 then State(s.sectors + [Sector(Loop(s.pending), 0.0, 4.0)], []) else s
  }

  /** One event. Saving writes SaveMap(sectors) and changes nothing. */
  function Step(b: Build, s: State, ev: Event): State
  {
    match ev
    case LeftButton(x, y) => s.(pending := s.pending + [GridSnap(x, y)])
    case RightButton(near) => s.(sectors := RightClick(s.sectors, near, RuleOf(b)))
    case ReturnKey => ClosePolygon(s)
    case DeleteKey(near) =>
      var h := FindHoveredSector(s.sectors, near);
      if h >= 0 then s.(sectors := Delete(b, s.sectors, h)) else s
    case SaveKey => s
    case Ignored => s
  }

  function Run(b: Build, s: State, evs: seq<Event>): State
    decreases |evs|
  {
    if |evs| == 0 then s else Run(b, Step(b, s, evs[0]), evs[1..])
  }

  /** Startup: the map named on the command line, if any, is loaded into
      the empty world. A failed load leaves whatever sectors were read
      before the failure. */
  function Start(file: Option<seq<Line>>): State
  {
    State(LoadMap([], file).sectors, [])
  }

  // ---------------------------------------------------------------------
  // Every coordinate stays on the grid

  predicate AllOnGrid(ps: seq<Point>)
  {
    forall k :: 0 <= k < |ps| ==> OnGrid(ps[k])
  }

  predicate GridInvariant(s: State)
  {
    Aligned(s.sectors) && AllOnGrid(s.pending)
  }

  /** A spliced wall list holds only walls of the two lists it was made of. */
  lemma SpliceKeeps(ws: seq<Wall>, k: nat, pieces: seq<Wall>, P: Wall -> bool)
    requires k < |ws|
    requires forall j :: 0 <= j < |ws| ==> P(ws[j])
    requires forall j :: 0 <= j < |pieces| ==> P(pieces[j])
    ensures forall j :: 0 <= j < |Splice(ws, k, pieces)| ==> P(Splice(ws, k, pieces)[j])
  {
    var r := Splice(ws, k, pieces);
    forall j | 0 <= j < |r|
      ensures P(r[j])
    {
      if j < k {
        assert r[j] == r[..k][j] == ws[j];
      } else if j < k + |pieces| {
        assert r[j] == r[k..k + |pieces|][j - k] == pieces[j - k];
      } else {
        assert r[j] == r[k + |pieces|..][j - k - |pieces|] == ws[k + 1..][j - k - |pieces|];
      }
    }
  }

  /** Linking keeps any wall property that the new pieces have. */
  lemma LinkPairKeeps(w: World, src: WallRef, t: WallRef, rule: BoundsRule, P: Wall -> bool)
    requires ValidRef(w, src) && ValidRef(w, t) && src.sector != t.sector
    requires AllWalls(w, P)
    requires forall k :: 0 <= k < |SourcePieces(w, src, t, rule)| ==> P(SourcePieces(w, src, t, rule)[k])
    requires forall k :: 0 <= k < |TargetPieces(w, src, t, rule)| ==> P(TargetPieces(w, src, t, rule)[k])
    ensures AllWalls(LinkPair(w, src, t, rule), P)
  {
    var w' := LinkPair(w, src, t, rule);
    forall i | 0 <= i < |w'|
      ensures forall j :: 0 <= j < |w'[i].walls| ==> P(w'[i].walls[j])
    {
      if i == src.sector {
        SpliceKeeps(w[i].walls, src.wall, SourcePieces(w, src, t, rule), P);
      } else if i == t.sector {
        SpliceKeeps(w[i].walls, t.wall, TargetPieces(w, src, t, rule), P);
      }
    }
  }

  /** Each piece of a split runs between two of a1, s, e, a2. */
  lemma PiecesOnGrid(a1: Point, a2: Point, s: Point, e: Point, target: int)
    requires OnGrid(a1) && OnGrid(a2) && OnGrid(s) && OnGrid(e)
    ensures forall k :: 0 <= k < |Pieces(a1, a2, s, e, target)| ==> WallOnGrid(Pieces(a1, a2, s, e, target)[k])
  {
    var ps := Pieces(a1, a2, s, e, target);
    var lead: seq<Wall> := if a1 == s then [] else [Solid(a1, s)];
    var tail: seq<Wall> := if a2 == e then [] else [Solid(e, a2)];
    assert ps == lead + [Wall(s, e, true, target)] + tail;
    forall k | 0 <= k < |ps|
      ensures WallOnGrid(ps[k])
    {
      if k < |lead| {
        assert ps[k] == lead[k];
      } else if k == |lead| {
        assert ps[k] == Wall(s, e, true, target);
      } else {
        assert ps[k] == tail[k - |lead| - 1];
      }
    }
  }

  /** Both rules bound the overlap by grid points when the walls are on the
      grid: each coordinate is one of the walls' own coordinates. */
  lemma BoundsOnGrid(rule: BoundsRule, a1: Point, a2: Point, b1: Point, b2: Point)
    requires OnGrid(a1) && OnGrid(a2) && OnGrid(b1) && OnGrid(b2)
    ensures OnGrid(Bounds(rule, a1, a2, b1, b2).0) && OnGrid(Bounds(rule, a1, a2, b1, b2).1)
  {
  }

  lemma LinkPairKeepsAligned(w: World, src: WallRef, t: WallRef, rule: BoundsRule)
    requires ValidRef(w, src) && ValidRef(w, t) && src.sector != t.sector
    requires Aligned(w)
    ensures Aligned(LinkPair(w, src, t, rule))
  {
    var a, b := WallAt(w, src), WallAt(w, t);
    assert WallOnGrid(a) && WallOnGrid(b);
    var (a1, a2) := Ordered(a.p1, a.p2);
    var (b1, b2) := Ordered(b.p1, b.p2);
    BoundsOnGrid(rule, a1, a2, b1, b2);
    var (s, e) := Bounds(rule, a1, a2, b1, b2);
    PiecesOnGrid(a1, a2, s, e, t.sector);
    PiecesOnGrid(b1, b2, s, e, src.sector);
    LinkPairKeeps(w, src, t, rule, WallOnGrid);
  }

  lemma RightClickKeepsAligned(w: World, near: Wall -> bool, rule: BoundsRule)
    requires Aligned(w)
    ensures Aligned(RightClick(w, near, rule))
  {
    match FindWallAt(w, near)
    case None =>
    case Some(r) =>
      var x := WallAt(w, r);
      if x.isPortal {
        var w' := UnlinkPortal(w, r);
        forall i, j | 0 <= i < |w'| && 0 <= j < |w'[i].walls|
          ensures WallOnGrid(w'[i].walls[j])
        {
          assert WallOnGrid(w[i].walls[j]);
        }
      } else {
        var flagged := SetWall(w, r, x.(isPortal := true));
        assert Aligned(flagged) by {
          forall i, j | 0 <= i < |flagged| && 0 <= j < |flagged[i].walls|
            ensures WallOnGrid(flagged[i].walls[j])
          {
            assert WallOnGrid(w[i].walls[j]);
          }
        }
        match FindLinkTarget(flagged, r)
        case None =>
        case Some(t) => LinkPairKeepsAligned(flagged, r, t, rule);
      }
  }

  lemma DeleteKeepsAligned(b: Build, w: World, id: int)
    requires Aligned(w)
    ensures Aligned(Delete(b, w, id))
  {
    var w' := Delete(b, w, id);
    if 0 <= id < |w| {
      forall i, j | 0 <= i < |w'| && 0 <= j < |w'[i].walls|
        ensures WallOnGrid(w'[i].walls[j])
      {
        assert WallOnGrid(w[OldIndex(i, id)].walls[j]);
      }
    }
  }

  lemma LoopOnGrid(pts: seq<Point>)
    requires AllOnGrid(pts)
    ensures forall k :: 0 <= k < |Loop(pts)| ==> WallOnGrid(Loop(pts)[k])
  {
  }

  /** Every event keeps all wall endpoints and all pending points on the
      grid, in both builds. */
  lemma StepKeepsGrid(b: Build, s: State, ev: Event)
    requires GridInvariant(s)
    ensures GridInvariant(Step(b, s, ev))
  {
    match ev
    case LeftButton(x, y) =>
      GridSnapIdempotent(x, y);
    case RightButton(near) =>
      RightClickKeepsAligned(s.sectors, near, RuleOf(b));
    case ReturnKey =>
      if |s.pending| > 2 {
        LoopOnGrid(s.pending);
        var w' := ClosePolygon(s).sectors;
        forall i, j | 0 <= i < |w'| && 0 <= j < |w'[i].walls|
          ensures WallOnGrid(w'[i].walls[j])
        {
          if i < |s.sectors| {
            assert w'[i] == s.sectors[i];
          }
        }
      }
    case DeleteKey(near) =>
      var h := FindHoveredSector(s.sectors, near);
      if h >= 0 {
        DeleteKeepsAligned(b, s.sectors, h);
      }
    case SaveKey =>
    case Ignored =>
  }

  lemma {:induction false} RunKeepsGrid(b: Build, s: State, evs: seq<Event>)
    requires GridInvariant(s)
    decreases |evs|
    ensures GridInvariant(Run(b, s, evs))
  {
    if |evs| > 0 {
      StepKeepsGrid(b, s, evs[0]);
      RunKeepsGrid(b, Step(b, s, evs[0]), evs[1..]);
    }
  }

  /** Whatever the file holds, every sector loadMap builds lies on the
      grid, because wall coordinates are read in grid units. */
  lemma {:induction false} ParseFromAligned(ls: seq<Line>, acc: World)
    requires Aligned(acc)
    decreases |ls|
    ensures Aligned(ParseFrom(ls, acc).sectors)
  {
    if |ls| == 0 {
    } else if ls[0].Empty? {
      ParseFromAligned(ls[1..], acc);
    } else if ParseHeader(ls[0]).Some? {
      var h := ParseHeader(ls[0]).value;
      var n := Max(h.wallCount, 0);
      if |ls| >= 1 + n && ParseWalls(ls[1..1 + n]).Some? {
        var ws := ParseWalls(ls[1..1 + n]).value;
        var acc' := acc + [Sector(ws, h.floorHeight, h.ceilingHeight)];
        assert Aligned(acc') by {
          forall i, j | 0 <= i < |acc'| && 0 <= j < |acc'[i].walls|
            ensures WallOnGrid(acc'[i].walls[j])
          {
            if i < |acc| {
              assert acc'[i] == acc[i];
            } else {
              assert acc'[i].walls[j] == ParseWall(ls[1..1 + n][j]).value;
            }
          }
        }
        if |ls| > 1 + n {
          ParseFromAligned(ls[2 + n..], acc');
        }
      }
    }
  }

  lemma StartOnGrid(file: Option<seq<Line>>)
    ensures GridInvariant(Start(file))
  {
    if file.Some? {
      ParseFromAligned(file.value, []);
    }
  }

  /** Saving in any state the editor can reach and loading the file back
      gives exactly the sectors on screen. */
  lemma ReachableStatesSaveExactly(b: Build, file: Option<seq<Line>>, evs: seq<Event>, prior: World)
    ensures var s := Run(b, Start(file), evs);
            LoadMap(prior, Some(SaveMap(s.sectors))) == Load(true, s.sectors)
  {
    StartOnGrid(file);
    RunKeepsGrid(b, Start(file), evs);
    SaveLoadAligned(prior, Run(b, Start(file), evs).sectors);
  }

  // ---------------------------------------------------------------------
  // Portals only name sectors that exist

  /** A portal names an existing sector or is still pending (-1); a solid
      wall names none. */
  predicate LinkOk(x: Wall, n: int)
  {
    if x.isPortal then NoSector <= x.adjoiningSector < n else x.adjoiningSector == NoSector
  }

  predicate WellLinked(w: World)
  {
    forall i, j :: 0 <= i < |w| && 0 <= j < |w[i].walls| ==> LinkOk(w[i].walls[j], |w|)
  }

  lemma PiecesLinkOk(a1: Point, a2: Point, s: Point, e: Point, target: int, n: int)
    requires 0 <= target < n
    ensures forall k :: 0 <= k < |Pieces(a1, a2, s, e, target)| ==> LinkOk(Pieces(a1, a2, s, e, target)[k], n)
  {
    var ps := Pieces(a1, a2, s, e, target);
    forall k | 0 <= k < |ps|
      ensures LinkOk(ps[k], n)
    {
      if k != PortalSlot(a1, s) {
        assert ps[k] == Solid(ps[k].p1, ps[k].p2);
      }
    }
  }

  lemma RightClickKeepsLinks(w: World, near: Wall -> bool, rule: BoundsRule)
    requires WellLinked(w)
    ensures WellLinked(RightClick(w, near, rule))
  {
    var n := |w|;
    match FindWallAt(w, near)
    case None =>
    case Some(r) =>
      var x := WallAt(w, r);
      if x.isPortal {
        var w' := UnlinkPortal(w, r);
        forall i, j | 0 <= i < |w'| && 0 <= j < |w'[i].walls|
          ensures LinkOk(w'[i].walls[j], n)
        {
          assert LinkOk(w[i].walls[j], n);
        }
      } else {
        var flagged := SetWall(w, r, x.(isPortal := true));
        assert LinkOk(x, n);
        assert AllWalls(flagged, y => LinkOk(y, n)) by {
          forall i, j | 0 <= i < |flagged| && 0 <= j < |flagged[i].walls|
            ensures LinkOk(flagged[i].walls[j], n)
          {
            assert LinkOk(w[i].walls[j], n);
          }
        }
        match FindLinkTarget(flagged, r)
        case None =>
        case Some(t) =>
          var (a1, a2) := Ordered(WallAt(flagged, r).p1, WallAt(flagged, r).p2);
          var (b1, b2) := Ordered(WallAt(flagged, t).p1, WallAt(flagged, t).p2);
          var (s, e) := Bounds(rule, a1, a2, b1, b2);
          PiecesLinkOk(a1, a2, s, e, t.sector, n);
          PiecesLinkOk(b1, b2, s, e, r.sector, n);
          LinkPairKeeps(flagged, r, t, rule, y => LinkOk(y, n));
      }
  }

  lemma DeleteKeepsLinks(b: Build, w: World, id: int)
    requires WellLinked(w)
    ensures WellLinked(Delete(b, w, id))
  {
    var w' := Delete(b, w, id);
    if 0 <= id < |w| {
      forall i, j | 0 <= i < |w'| && 0 <= j < |w'[i].walls|
        ensures LinkOk(w'[i].walls[j], |w'|)
      {
        assert LinkOk(w[OldIndex(i, id)].walls[j], |w|);
      }
    }
  }

  /** In both builds no event makes a portal name a sector that does not
      exist, deletions included; the as-written build may name the wrong
      one (see the findings), never a missing one. */
  lemma StepKeepsLinks(b: Build, s: State, ev: Event)
    requires WellLinked(s.sectors)
    ensures WellLinked(Step(b, s, ev).sectors)
  {
    match ev
    case LeftButton(x, y) =>
    case RightButton(near) =>
      RightClickKeepsLinks(s.sectors, near, RuleOf(b));
    case ReturnKey =>
      if |s.pending| > 2 {
        var w' := ClosePolygon(s).sectors;
        forall i, j | 0 <= i < |w'| && 0 <= j < |w'[i].walls|
          ensures LinkOk(w'[i].walls[j], |w'|)
        {
          if i < |s.sectors| {
            assert w'[i] == s.sectors[i];
            assert LinkOk(s.sectors[i].walls[j], |s.sectors|);
          }
        }
      }
    case DeleteKey(near) =>
      var h := FindHoveredSector(s.sectors, near);
      if h >= 0 {
        DeleteKeepsLinks(b, s.sectors, h);
      }
    case SaveKey =>
    case Ignored =>
  }

  lemma {:induction false} RunKeepsLinks(b: Build, s: State, evs: seq<Event>)
    requires WellLinked(s.sectors)
    decreases |evs|
    ensures WellLinked(Run(b, s, evs).sectors)
  {
    if |evs| > 0 {
      StepKeepsLinks(b, s, evs[0]);
      RunKeepsLinks(b, Step(b, s, evs[0]), evs[1..]);
    }
  }

  /** Started without a map file, every state the editor reaches is well
      linked. */
  lemma ReachableFromEmptyStartStayLinked(b: Build, evs: seq<Event>)
    ensures Start(None).sectors == []
    ensures WellLinked(Run(b, Start(None), evs).sectors)
  {
    RunKeepsLinks(b, Start(None), evs);
  }

  /** A loaded file is not checked: loadMap accepts a portal into a sector
      the file does not hold, so the link invariant needs a well-linked
      file to start from. */
  lemma LoadedPortalMayDangle()
    ensures var file := [Tokens([Int(0), Int(1), Int(0), Int(4)]),
                         Tokens([Int(0), Int(0), Int(1), Int(0), Int(1), Int(5)]), Empty];
            && LoadMap([], Some(file)).ok
            && !WellLinked(Start(Some(file)).sectors)
  {
    var file := [Tokens([Int(0), Int(1), Int(0), Int(4)]),
                 Tokens([Int(0), Int(0), Int(1), Int(0), Int(1), Int(5)]), Empty];
    var x := Wall(Point(0, 0), Point(GridSize, 0), true, 5);
    assert ParseHeader(file[0]) == Some(Header(0, 1, 0.0, 4.0));
    assert ParseWall(file[1]) == Some(x);
    assert file[1..2] == [file[1]];
    assert ParseWalls(file[1..2]).Some?;
    var v := ParseWalls(file[1..2]).value;
    assert |v| == 1 && v[0] == x;
    assert v == [x];
    var w := [Sector([x], 0.0, 4.0)];
    assert ParseFrom(file, []) == ParseFrom(file[3..], w);
    assert file[3..] == [];
    assert !LinkOk(w[0].walls[0], |w|);
  }
}
