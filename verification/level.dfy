/** The wall record shared by both editors (editor/edit.cpp and
    editor/test.cpp): an oriented segment that is either solid or a portal
    into another sector, and the closed wall loop a drawn polygon becomes. */
module Level {
  import opened Geometry

  /** The "no adjoining sector" sentinel of a solid wall. */
  const NoSector: int := -1

  datatype Wall = Wall(p1: Point, p2: Point, isPortal: bool, adjoiningSector: int)

  /** A freshly built wall: solid, no neighbour (the source's default members). */
  function Solid(p1: Point, p2: Point): (w: Wall)
    ensures w.p1 == p1 && w.p2 == p2
    ensures !w.isPortal && w.adjoiningSector == NoSector
  {
    Wall(p1, p2, false, NoSector)
  }

  /** The same wall traversed the other way round. */
  function Reversed(w: Wall): (r: Wall)
    ensures r.p1 == w.p2 && r.p2 == w.p1
    ensures r.isPortal == w.isPortal && r.adjoiningSector == w.adjoiningSector
  {
    w.(p1 := w.p2, p2 := w.p1)
  }

  /** Same segment, in the same or in opposite direction (edit.cpp's
      wallsExactlyMatch). */
  predicate WallsExactlyMatch(a: Wall, b: Wall)
  {
    (a.p1 == b.p1 && a.p2 == b.p2) || (a.p1 == b.p2 && a.p2 == b.p1)
  }

  /** The exact-match test is an equivalence that ignores direction and the
      portal fields. */
  lemma WallsExactlyMatchIsOrderFree(a: Wall, b: Wall, c: Wall)
    ensures WallsExactlyMatch(a, a)
    ensures WallsExactlyMatch(a, b) == WallsExactlyMatch(b, a)
    ensures WallsExactlyMatch(a, b) == WallsExactlyMatch(a, Reversed(b))
    ensures WallsExactlyMatch(a, b) && WallsExactlyMatch(b, c) ==> WallsExactlyMatch(a, c)
  {
  }

  /** Walls point i -> point (i+1) mod n, all solid: how both editors turn
      a finished polygon into a sector's wall list. */
  function Loop(pts: seq<Point>): (ws: seq<Wall>)
    ensures |ws| == |pts|
    ensures forall i :: 0 <= i < |pts| ==> ws[i] == Solid(pts[i], pts[(i + 1) % |pts|])
  {
    seq(|pts|, i requires 0 <= i < |pts| => Solid(pts[i], pts[(i + 1) % |pts|]))
  }

  /** A wall list is a closed polygon: each wall ends where the next one
      (cyclically) starts. */
  predicate ClosedLoop(ws: seq<Wall>)
  {
    forall i :: 0 <= i < |ws| ==> ws[i].p2 == ws[(i + 1) % |ws|].p1
  }

  /** The walls built from a polygon form a closed loop through its points,
      in order. */
  lemma LoopIsClosed(pts: seq<Point>)
    ensures ClosedLoop(Loop(pts))
    ensures forall i :: 0 <= i < |pts| ==> Loop(pts)[i].p1 == pts[i]
  {
    var ws := Loop(pts);
    forall i | 0 <= i < |ws|
      ensures ws[i].p2 == ws[(i + 1) % |ws|].p1
    {
      assert ws[(i + 1) % |ws|] == Solid(pts[(i + 1) % |pts|], pts[((i + 1) % |pts| + 1) % |pts|]);
    }
  }
}
