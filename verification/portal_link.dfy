/** The grid editor's portal auto-linker and the right-click portal toggle
    (editor/edit.cpp, tryAutoLinkPortal and the mouse handler in main). */
module PortalLink {
  import opened Base
  import opened Geometry
  import opened Level
  import opened EditWorld

  /** How the overlap sub-segment is bounded once both walls have their
      endpoints in lexicographic order. The source takes the componentwise
      max of the two lower ends and the componentwise min of the two upper
      ends; the lexicographic rule is the corrected one (see the findings). */
  datatype BoundsRule = Componentwise | Lexicographic

  /** (overlapStart, overlapEnd) for ordered walls a1-a2 and b1-b2. */
  function Bounds(rule: BoundsRule, a1: Point, a2: Point, b1: Point, b2: Point): (Point, Point)
  {
    match rule
    case Componentwise =>
      (Point(Max(a1.x, b1.x), Max(a1.y, b1.y)), Point(Min(a2.x, b2.x), Min(a2.y, b2.y)))
    case Lexicographic =>
      (LexMax(a1, b1), LexMin(a2, b2))
  }

  /** Index of the portal piece within Pieces(a1, _, s, _, _). */
  function PortalSlot(a1: Point, s: Point): nat
  {
    if a1 == s then 0 else 1
  }

  /** The one to three walls that replace a1-a2 once s-e is its portal
      part: a solid lead-in unless a1 == s, the portal, a solid tail unless
      e == a2. Together they run from a1 to a2 without gaps. */
  function Pieces(a1: Point, a2: Point, s: Point, e: Point, target: int): (ps: seq<Wall>)
    ensures |ps| == 1 + (if a1 == s then 0 else 1) + (if a2 == e then 0 else 1)
    ensures ps[0].p1 == a1 && ps[|ps| - 1].p2 == a2
    ensures forall k :: 0 <= k < |ps| - 1 ==> ps[k].p2 == ps[k + 1].p1
    ensures PortalSlot(a1, s) < |ps| && ps[PortalSlot(a1, s)] == Wall(s, e, true, target)
    ensures forall k :: 0 <= k < |ps| && k != PortalSlot(a1, s) ==> ps[k] == Solid(ps[k].p1, ps[k].p2)
  {
    (if a1 == s then [] else [Solid(a1, s)])
    + [Wall(s, e, true, target)]
    + (if a2 == e then [] else [Solid(e, a2)])
  }

  /** A wall the linker may pair with: in another sector, not already a
      portal, and overlapping the source wall a. */
  predicate LinkCandidate(srcSector: nat, a: Wall, s: nat, x: Wall)
  {
    s != srcSector && !x.isPortal && SegmentsOverlap(a.p1, a.p2, x.p1, x.p2)
  }

  /** The wall tryAutoLinkPortal pairs with: the first candidate in sector
      order, then wall order. */
  function FindLinkTarget(w: World, src: WallRef): (t: Option<WallRef>)
    requires ValidRef(w, src)
    ensures t.Some? ==> ValidRef(w, t.value) && t.value.sector != src.sector
    ensures t.Some? ==> !WallAt(w, t.value).isPortal
    ensures t.Some? ==> SegmentsOverlap(WallAt(w, src).p1, WallAt(w, src).p2, WallAt(w, t.value).p1, WallAt(w, t.value).p2)
    ensures t.Some? ==> forall s, j :: 0 <= s < |w| && 0 <= j < |w[s].walls| && Before(s, j, t.value) ==>
      !LinkCandidate(src.sector, WallAt(w, src), s, w[s].walls[j])
    ensures t.None? ==> forall s, j :: 0 <= s < |w| && 0 <= j < |w[s].walls| ==>
      !LinkCandidate(src.sector, WallAt(w, src), s, w[s].walls[j])
  {
    var a := WallAt(w, src);
    FindFirst(w, (s: nat, x: Wall) => LinkCandidate(src.sector, a, s, x))
  }

  /** When t is the only candidate for src, the search finds t. */
  lemma UniqueCandidateIsFound(w: World, src: WallRef, t: WallRef)
    requires ValidRef(w, src) && ValidRef(w, t)
    requires LinkCandidate(src.sector, WallAt(w, src), t.sector, WallAt(w, t))
    requires forall s, j :: 0 <= s < |w| && 0 <= j < |w[s].walls| && WallRef(s, j) != t ==>
      !LinkCandidate(src.sector, WallAt(w, src), s, w[s].walls[j])
    ensures FindLinkTarget(w, src) == Some(t)
  {
    var r := FindLinkTarget(w, src);
    if r.Some? {
      assert LinkCandidate(src.sector, WallAt(w, src), r.value.sector, WallAt(w, r.value));
    }
  }

  /** Walls (sa, ja) and (sb, jb) form a portal pair: both portals, same
      segment, each naming the other's sector. */
  predicate PortalPair(w: World, sa: int, ja: int, sb: int, jb: int)
  {
    && 0 <= sa < |w| && 0 <= ja < |w[sa].walls| && 0 <= sb < |w| && 0 <= jb < |w[sb].walls|
    && sa != sb
    && w[sa].walls[ja].isPortal && w[sa].walls[ja].adjoiningSector == sb
    && w[sb].walls[jb].isPortal && w[sb].walls[jb].adjoiningSector == sa
    && WallsExactlyMatch(w[sa].walls[ja], w[sb].walls[jb])
  }

  /** The two piece lists of a link between src and t. */
  function SourcePieces(w: World, src: WallRef, t: WallRef, rule: BoundsRule): seq<Wall>
    requires ValidRef(w, src) && ValidRef(w, t)
  {
    var (a1, a2) := Ordered(WallAt(w, src).p1, WallAt(w, src).p2);
    var (b1, b2) := Ordered(WallAt(w, t).p1, WallAt(w, t).p2);
    var (s, e) := Bounds(rule, a1, a2, b1, b2);
    Pieces(a1, a2, s, e, t.sector)
  }

  function TargetPieces(w: World, src: WallRef, t: WallRef, rule: BoundsRule): seq<Wall>
    requires ValidRef(w, src) && ValidRef(w, t)
  {
    var (a1, a2) := Ordered(WallAt(w, src).p1, WallAt(w, src).p2);
    var (b1, b2) := Ordered(WallAt(w, t).p1, WallAt(w, t).p2);
    var (s, e) := Bounds(rule, a1, a2, b1, b2);
    Pieces(b1, b2, s, e, src.sector)
  }

  /** Splits the source wall and the matched wall around their common part
      and makes the two middle pieces a portal pair. Both splices are in
      place; no other sector changes, no heights change. */
  function LinkPair(w: World, src: WallRef, t: WallRef, rule: BoundsRule): (w': World)
    requires ValidRef(w, src) && ValidRef(w, t) && src.sector != t.sector
    ensures |w'| == |w|
    ensures forall s :: 0 <= s < |w| && s != src.sector && s != t.sector ==> w'[s] == w[s]
    ensures forall s :: 0 <= s < |w| ==>
      w'[s].floorHeight == w[s].floorHeight && w'[s].ceilingHeight == w[s].ceilingHeight
    ensures w'[src.sector].walls == Splice(w[src.sector].walls, src.wall, SourcePieces(w, src, t, rule))
    ensures w'[t.sector].walls == Splice(w[t.sector].walls, t.wall, TargetPieces(w, src, t, rule))
    ensures var (a1, a2) := Ordered(WallAt(w, src).p1, WallAt(w, src).p2);
            var (b1, b2) := Ordered(WallAt(w, t).p1, WallAt(w, t).p2);
            var (s, e) := Bounds(rule, a1, a2, b1, b2);
            && PortalPair(w', src.sector, src.wall + PortalSlot(a1, s), t.sector, t.wall + PortalSlot(b1, s))
            && w'[src.sector].walls[src.wall + PortalSlot(a1, s)].p1 == s
            && w'[src.sector].walls[src.wall + PortalSlot(a1, s)].p2 == e
  {
    var w1 := ReplaceWall(w, src, SourcePieces(w, src, t, rule));
    var w2 := ReplaceWall(w1, t, TargetPieces(w, src, t, rule));
    var (a1, a2) := Ordered(WallAt(w, src).p1, WallAt(w, src).p2);
    var (b1, b2) := Ordered(WallAt(w, t).p1, WallAt(w, t).p2);
    var (s, e) := Bounds(rule, a1, a2, b1, b2);
    assert w2[src.sector].walls[src.wall + PortalSlot(a1, s)] == SourcePieces(w, src, t, rule)[PortalSlot(a1, s)];
    assert w2[t.sector].walls[t.wall + PortalSlot(b1, s)] == TargetPieces(w, src, t, rule)[PortalSlot(b1, s)];
    w2
  }

  /** tryAutoLinkPortal: pair the wall at src with the first candidate, if
      any, and stop. With no candidate the world is unchanged; otherwise
      exactly the two walls involved are split, the source sector grows by
      at most two walls, and a reciprocal portal pair now joins the two
      sectors. */
  function TryAutoLinkPortal(w: World, src: WallRef): (w': World)
    requires ValidRef(w, src)
    ensures |w'| == |w|
    ensures FindLinkTarget(w, src).None? ==> w' == w
    ensures FindLinkTarget(w, src).Some? ==>
      var t := FindLinkTarget(w, src).value;
      && w' == LinkPair(w, src, t, Componentwise)
      && (forall s :: 0 <= s < |w| && s != src.sector && s != t.sector ==> w'[s] == w[s])
      && |w[src.sector].walls| <= |w'[src.sector].walls| <= |w[src.sector].walls| + 2
      && |w[t.sector].walls| <= |w'[t.sector].walls| <= |w[t.sector].walls| + 2
      && exists ja, jb :: PortalPair(w', src.sector, ja, t.sector, jb)
  {
    match FindLinkTarget(w, src)
    case None => w
    case Some(t) => LinkPair(w, src, t, Componentwise)
  }

  /** A wall that coincides with its partner (in either direction) links
      without leftover stubs: each side keeps its wall count and the matched
      slot becomes the portal, in lexicographic direction. */
  lemma FullSharedEdgeLinksWithoutStubs(w: World, src: WallRef, t: WallRef)
    requires ValidRef(w, src) && ValidRef(w, t) && src.sector != t.sector
    requires WallsExactlyMatch(WallAt(w, src), WallAt(w, t))
    ensures var w' := LinkPair(w, src, t, Componentwise);
            var (a1, a2) := Ordered(WallAt(w, src).p1, WallAt(w, src).p2);
            && |w'[src.sector].walls| == |w[src.sector].walls|
            && |w'[t.sector].walls| == |w[t.sector].walls|
            && w'[src.sector].walls[src.wall] == Wall(a1, a2, true, t.sector)
            && w'[t.sector].walls[t.wall] == Wall(a1, a2, true, src.sector)
  {
    var a, b := WallAt(w, src), WallAt(w, t);
    var (a1, a2) := Ordered(a.p1, a.p2);
    var (b1, b2) := Ordered(b.p1, b.p2);
    assert a1 == b1 && a2 == b2;
    assert Bounds(Componentwise, a1, a2, b1, b2) == (a1, a2);
  }

  /** A horizontal wall that shares only its right part with a neighbour
      splits into a solid piece and a portal piece, while the neighbour,
      which lies wholly inside it, becomes a single portal. */
  lemma PartialOverlapSplitsInTwo(w: World, src: WallRef, t: WallRef)
    requires ValidRef(w, src) && ValidRef(w, t) && src.sector != t.sector
    requires var a, b := WallAt(w, src), WallAt(w, t);
      && a.p1.y == a.p2.y == b.p1.y == b.p2.y
      && a.p1.x < b.p1.x < b.p2.x == a.p2.x
    ensures var a, b := WallAt(w, src), WallAt(w, t);
            var w' := LinkPair(w, src, t, Componentwise);
            && |w'[src.sector].walls| == |w[src.sector].walls| + 1
            && w'[src.sector].walls[src.wall] == Solid(a.p1, b.p1)
            && w'[src.sector].walls[src.wall + 1] == Wall(b.p1, b.p2, true, t.sector)
            && |w'[t.sector].walls| == |w[t.sector].walls|
            && w'[t.sector].walls[t.wall] == Wall(b.p1, b.p2, true, src.sector)
  {
    var a, b := WallAt(w, src), WallAt(w, t);
    assert Ordered(a.p1, a.p2) == (a.p1, a.p2);
    assert Ordered(b.p1, b.p2) == (b.p1, b.p2);
    assert Bounds(Componentwise, a.p1, a.p2, b.p1, b.p2) == (b.p1, b.p2);
  }

  /** Clears every portal in ws that leads back to sector s. */
  function ClearPortalsTo(ws: seq<Wall>, s: int): (r: seq<Wall>)
    ensures |r| == |ws|
    ensures forall j :: 0 <= j < |ws| ==>
      r[j] == (if ws[j].isPortal && ws[j].adjoiningSector == s then Solid(ws[j].p1, ws[j].p2) else ws[j])
  {
    seq(|ws|, j requires 0 <= j < |ws| =>
      if ws[j].isPortal && ws[j].adjoiningSector == s then Solid(ws[j].p1, ws[j].p2) else ws[j])
  }

  /** Right-click on a portal: every wall of the linked sector (when that
      index is in range) that is a portal back to this sector becomes solid,
      then the clicked wall itself becomes solid. Split pieces are not
      merged again: every wall count stays as it was. */
  function UnlinkPortal(w: World, r: WallRef): (w': World)
    requires ValidRef(w, r)
    ensures |w'| == |w| && ValidRef(w', r)
    ensures forall s :: 0 <= s < |w| ==>
      (|w'[s].walls| == |w[s].walls|
       && w'[s].floorHeight == w[s].floorHeight && w'[s].ceilingHeight == w[s].ceilingHeight)
    ensures WallAt(w', r) == Solid(WallAt(w, r).p1, WallAt(w, r).p2)
    ensures var linked := WallAt(w, r).adjoiningSector;
      forall s, j :: 0 <= s < |w| && 0 <= j < |w[s].walls| && (s != r.sector || j != r.wall) ==>
        w'[s].walls[j] ==
          (if s == linked && w[s].walls[j].isPortal && w[s].walls[j].adjoiningSector == r.sector
           then Solid(w[s].walls[j].p1, w[s].walls[j].p2)
           else w[s].walls[j])
    ensures var linked := WallAt(w, r).adjoiningSector;
      0 <= linked < |w| ==>
        forall j :: 0 <= j < |w'[linked].walls| ==>
          !(w'[linked].walls[j].isPortal && w'[linked].walls[j].adjoiningSector == r.sector)
  {
    var linked := WallAt(w, r).adjoiningSector;
    var w1 := if 0 <= linked < |w|
      then w[linked := w[linked].(walls := ClearPortalsTo(w[linked].walls, r.sector))]
      else w;
    SetWall(w1, r, Solid(WallAt(w1, r).p1, WallAt(w1, r).p2))
  }

  /** The auto-linker under either bounds rule: as written
      (componentwise) or corrected (lexicographic). */
  function AutoLink(w: World, src: WallRef, rule: BoundsRule): (w': World)
    requires ValidRef(w, src)
    ensures |w'| == |w|
    ensures FindLinkTarget(w, src).None? ==> w' == w
    ensures FindLinkTarget(w, src).Some? ==> w' == LinkPair(w, src, FindLinkTarget(w, src).value, rule)
  {
    match rule
    case Componentwise => TryAutoLinkPortal(w, src)
    case Lexicographic => TryAutoLinkPortalFixed(w, src)
  }

  /** Right-click on the wall at r: a solid wall is flagged as a portal and
      auto-linked; a portal is unlinked on both sides. */
  function TogglePortal(w: World, r: WallRef, rule: BoundsRule): (w': World)
    requires ValidRef(w, r)
    ensures |w'| == |w|
    ensures WallAt(w, r).isPortal ==> w' == UnlinkPortal(w, r)
    ensures !WallAt(w, r).isPortal ==>
      var flagged := SetWall(w, r, WallAt(w, r).(isPortal := true));
      w' == AutoLink(flagged, r, rule)
  {
    if !WallAt(w, r).isPortal then
      AutoLink(SetWall(w, r, WallAt(w, r).(isPortal := true)), r, rule)
    else
      UnlinkPortal(w, r)
  }

  /** A solid wall that finds no partner is left flagged as a portal with
      its old adjoining index: "portal requested, link pending". */
  lemma UnmatchedToggleLeavesPendingPortal(w: World, r: WallRef, rule: BoundsRule)
    requires ValidRef(w, r) && !WallAt(w, r).isPortal
    requires FindLinkTarget(SetWall(w, r, WallAt(w, r).(isPortal := true)), r).None?
    ensures TogglePortal(w, r, rule) == SetWall(w, r, WallAt(w, r).(isPortal := true))
    ensures WallAt(TogglePortal(w, r, rule), r).isPortal
    ensures WallAt(TogglePortal(w, r, rule), r).adjoiningSector == WallAt(w, r).adjoiningSector
  {
  }

  /** The right mouse button: toggle the first wall under the cursor, if any. */
  function RightClick(w: World, hit: Wall -> bool, rule: BoundsRule): (w': World)
    ensures |w'| == |w|
    ensures FindWallAt(w, hit).None? ==> w' == w
    ensures FindWallAt(w, hit).Some? ==> w' == TogglePortal(w, FindWallAt(w, hit).value, rule)
  {
    match FindWallAt(w, hit)
    case None => w
    case Some(r) => TogglePortal(w, r, rule)
  }

  // ---------------------------------------------------------------------
  // Finding: the componentwise overlap bounds leave the shared line when the
  // walls slope downwards (x increasing, y decreasing).

  /** Two sectors sharing part of a wall of slope -1: sector 0's wall runs
      (0,64)-(64,0), sector 1's runs (32,32)-(96,-32); they overlap on
      (32,32)-(64,0). All coordinates are grid multiples. */
  function SlopedWorld(): World
  {
    [ Sector([Solid(Point(0, 64), Point(64, 0))], 0.0, 4.0),
      Sector([Solid(Point(32, 32), Point(96, -32))], 0.0, 4.0) ]
  }

  /** As written: the two walls of SlopedWorld form a link candidate and
      each is its sector's only wall, so (LoneNeighbourLink) the linker
      pairs them and replaces sector 0's wall by the split computed here.
      That split's portal piece starts at (32,64), which is not on the
      source wall's line. */
  lemma ComponentwiseBoundsLeaveTheLine(w: World)
    requires w == SlopedWorld()
    ensures |w| == 2 && |w[0].walls| == 1 && |w[1].walls| == 1
    ensures LinkCandidate(0, WallAt(w, WallRef(0, 0)), 1, WallAt(w, WallRef(1, 0)))
    ensures LinkPair(w, WallRef(0, 0), WallRef(1, 0), Componentwise)[0].walls
      == [Solid(Point(0, 64), Point(32, 64)), Wall(Point(32, 64), Point(64, -32), true, 1),
          Solid(Point(64, -32), Point(64, 0))]
    ensures !Collinear(Point(0, 64), Point(64, 0), Point(32, 64))
  {
    SlopedWallsOverlap(WallAt(w, WallRef(0, 0)), WallAt(w, WallRef(1, 0)));
    SlopedSourceSplit(w);
    SlopedPortalStartIsOffTheLine();
  }

  /** In a world of two one-wall sectors whose walls form a link candidate,
      tryAutoLinkPortal on sector 0's wall links it with sector 1's and
      leaves sector 0 holding exactly LinkPair's split. */
  lemma LoneNeighbourLink(w: World, split: seq<Wall>)
    requires |w| == 2 && |w[0].walls| == 1 && |w[1].walls| == 1
    requires LinkCandidate(0, WallAt(w, WallRef(0, 0)), 1, WallAt(w, WallRef(1, 0)))
    requires LinkPair(w, WallRef(0, 0), WallRef(1, 0), Componentwise)[0].walls == split
    ensures FindLinkTarget(w, WallRef(0, 0)) == Some(WallRef(1, 0))
    ensures TryAutoLinkPortal(w, WallRef(0, 0))[0].walls == split
  {
    TwoSectorTargetIsFound(w);
  }

  /** In a world of two one-wall sectors whose walls form a link candidate,
      the search from sector 0's wall finds sector 1's. */
  lemma TwoSectorTargetIsFound(w: World)
    requires |w| == 2 && |w[0].walls| == 1 && |w[1].walls| == 1
    requires LinkCandidate(0, WallAt(w, WallRef(0, 0)), 1, WallAt(w, WallRef(1, 0)))
    ensures FindLinkTarget(w, WallRef(0, 0)) == Some(WallRef(1, 0))
  {
    forall s, j | 0 <= s < |w| && 0 <= j < |w[s].walls| && WallRef(s, j) != WallRef(1, 0)
      ensures !LinkCandidate(0, WallAt(w, WallRef(0, 0)), s, w[s].walls[j])
    {
      assert s == 0;
    }
    UniqueCandidateIsFound(w, WallRef(0, 0), WallRef(1, 0));
  }

  lemma SlopedSourceSplit(w: World)
    requires w == SlopedWorld()
    ensures LinkPair(w, WallRef(0, 0), WallRef(1, 0), Componentwise)[0].walls
      == [Solid(Point(0, 64), Point(32, 64)), Wall(Point(32, 64), Point(64, -32), true, 1),
          Solid(Point(64, -32), Point(64, 0))]
  {
    var src, t := WallRef(0, 0), WallRef(1, 0);
    assert Ordered(Point(0, 64), Point(64, 0)) == (Point(0, 64), Point(64, 0));
    assert Ordered(Point(32, 32), Point(96, -32)) == (Point(32, 32), Point(96, -32));
    var pieces := Pieces(Point(0, 64), Point(64, 0), Point(32, 64), Point(64, -32), 1);
    assert SourcePieces(w, src, t, Componentwise) == pieces;
    assert pieces == [Solid(Point(0, 64), Point(32, 64)), Wall(Point(32, 64), Point(64, -32), true, 1),
                      Solid(Point(64, -32), Point(64, 0))];
    assert Splice(w[0].walls, 0, pieces) == pieces;
    var w' := LinkPair(w, src, t, Componentwise);
    assert w'[0].walls == pieces;
  }

  lemma SlopedWallsOverlap(a: Wall, b: Wall)
    requires a == Solid(Point(0, 64), Point(64, 0))
    requires b == Solid(Point(32, 32), Point(96, -32))
    ensures LinkCandidate(0, a, 1, b)
  {
    assert SegmentsOverlap(Point(0, 64), Point(64, 0), Point(32, 32), Point(96, -32));
  }

  lemma SlopedPortalStartIsOffTheLine()
    ensures !Collinear(Point(0, 64), Point(64, 0), Point(32, 64))
  {
    assert Cross(Point(0, 64), Point(64, 0), Point(32, 64)) == 2048;
  }

  /** Corrected: with lexicographic bounds the portal ends are ends of the
      two walls, so they lie on the source wall's line and inside both walls'
      lexicographic ranges. */
  lemma LexicographicBoundsStayOnTheLine(a: Wall, b: Wall)
    requires SegmentsOverlap(a.p1, a.p2, b.p1, b.p2)
    ensures var (a1, a2) := Ordered(a.p1, a.p2);
            var (b1, b2) := Ordered(b.p1, b.p2);
            var (s, e) := Bounds(Lexicographic, a1, a2, b1, b2);
            && Collinear(a.p1, a.p2, s) && Collinear(a.p1, a.p2, e)
            && !LexLess(s, a1) && !LexLess(s, b1)
            && !LexLess(a2, e) && !LexLess(b2, e)
  {
    var (a1, a2) := Ordered(a.p1, a.p2);
    var (b1, b2) := Ordered(b.p1, b.p2);
    assert Collinear(a.p1, a.p2, a.p1) && Collinear(a.p1, a.p2, a.p2);
  }

  /** Corrected, on the same two sectors: the portal piece is (32,32)-(64,0),
      the part the walls really share, and the source wall keeps a single
      solid lead-in. */
  lemma LexicographicSlopedSplit(w: World)
    requires w == SlopedWorld()
    ensures LinkPair(w, WallRef(0, 0), WallRef(1, 0), Lexicographic)[0].walls
      == [Solid(Point(0, 64), Point(32, 32)), Wall(Point(32, 32), Point(64, 0), true, 1)]
    ensures Collinear(Point(0, 64), Point(64, 0), Point(32, 32))
  {
    var src, t := WallRef(0, 0), WallRef(1, 0);
    assert Ordered(Point(0, 64), Point(64, 0)) == (Point(0, 64), Point(64, 0));
    assert Ordered(Point(32, 32), Point(96, -32)) == (Point(32, 32), Point(96, -32));
    assert Bounds(Lexicographic, Point(0, 64), Point(64, 0), Point(32, 32), Point(96, -32))
      == (Point(32, 32), Point(64, 0));
    var pieces := Pieces(Point(0, 64), Point(64, 0), Point(32, 32), Point(64, 0), 1);
    assert SourcePieces(w, src, t, Lexicographic) == pieces;
    assert pieces == [Solid(Point(0, 64), Point(32, 32)), Wall(Point(32, 32), Point(64, 0), true, 1)];
    assert Splice(w[0].walls, 0, pieces) == pieces;
    var w' := LinkPair(w, src, t, Lexicographic);
    assert w'[0].walls == pieces;
    assert Cross(Point(0, 64), Point(64, 0), Point(32, 32)) == 0;
  }

  /** tryAutoLinkPortal with the corrected bounds. */
  function TryAutoLinkPortalFixed(w: World, src: WallRef): (w': World)
    requires ValidRef(w, src)
    ensures |w'| == |w|
    ensures FindLinkTarget(w, src).None? ==> w' == w
    ensures FindLinkTarget(w, src).Some? ==>
      var t := FindLinkTarget(w, src).value;
      && (forall s :: 0 <= s < |w| && s != src.sector && s != t.sector ==> w'[s] == w[s])
      && exists ja, jb :: (PortalPair(w', src.sector, ja, t.sector, jb)
           && Collinear(WallAt(w, src).p1, WallAt(w, src).p2, w'[src.sector].walls[ja].p1)
           && Collinear(WallAt(w, src).p1, WallAt(w, src).p2, w'[src.sector].walls[ja].p2))
  {
    match FindLinkTarget(w, src)
    case None => w
    case Some(t) =>
      var w' := LinkPair(w, src, t, Lexicographic);
      LexicographicBoundsStayOnTheLine(WallAt(w, src), WallAt(w, t));
      w'
  }
}
