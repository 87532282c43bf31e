/** Snapping in the vertex editor (editor/test.cpp): rounding to a grid of
    GRID_SIZE = 5, and snapping a click onto an existing wall endpoint when
    one is within SNAP_DIST. Mouse coordinates are integers and every stored
    coordinate is a snapped one, so points are integer pairs and the
    `dist(...) < K` tests are the exact squared comparisons. */
module VertexSnap {
  import opened Base
  import opened Geometry
  import opened Level

  /** GRID_SIZE, SNAP_DIST and CLOSE_DIST of the vertex editor. */
  const GridStep: int := 5
  const SnapDist: int := 10
  const CloseDist: int := 10

  /** snapToGrid(v, GRID_SIZE): std::round(v / 5) * 5, the nearest
      multiple of the grid. For an integer v the quotient v / 5 is never a
      half, so the result is strictly within half a step of v and the
      rounding of halves never comes into play. */
  function SnapToGrid(v: int): (r: int)
    ensures r % GridStep == 0
    ensures -GridStep < 2 * (v - r) < GridStep
  {
    if v >= 0 then (2 * v + GridStep) / (2 * GridStep) * GridStep
    else -((2 * (-v) + GridStep) / (2 * GridStep) * GridStep)
  }

  /** The snapped value is the nearest multiple of the grid, and every
      other multiple is strictly farther from v. */
  lemma SnapToGridIsNearest(v: int, m: int)
    requires m % GridStep == 0
    ensures Abs(v - SnapToGrid(v)) <= Abs(v - m)
    ensures m != SnapToGrid(v) ==> Abs(v - SnapToGrid(v)) < Abs(v - m)
  {
    var r := SnapToGrid(v);
    assert (m - r) % GridStep == 0;
  }

  /** A multiple of the grid strictly less than half a step from v is the
      snapped value. */
  lemma SnapToGridUnique(v: int, m: int)
    requires m % GridStep == 0 && -GridStep < 2 * (v - m) < GridStep
    ensures SnapToGrid(v) == m
  {
    var r := SnapToGrid(v);
    assert (m - r) % GridStep == 0;
  }

  /** Snapping keeps grid values and is therefore idempotent. */
  lemma SnapToGridIdempotent(v: int)
    ensures v % GridStep == 0 ==> SnapToGrid(v) == v
    ensures SnapToGrid(SnapToGrid(v)) == SnapToGrid(v)
  {
    if v % GridStep == 0 {
      SnapToGridUnique(v, v);
    }
    SnapToGridUnique(SnapToGrid(v), SnapToGrid(v));
  }

  predicate OnStep(p: Point)
  {
    p.x % GridStep == 0 && p.y % GridStep == 0
  }

  /** snapVertexToGrid with the editor's grid. */
  function SnapVertex(p: Point): (r: Point)
    ensures OnStep(r)
    ensures -GridStep <= 2 * (p.x - r.x) <= GridStep && -GridStep <= 2 * (p.y - r.y) <= GridStep
  {
    Point(SnapToGrid(p.x), SnapToGrid(p.y))
  }

  lemma SnapVertexIdempotent(p: Point)
    ensures SnapVertex(SnapVertex(p)) == SnapVertex(p)
    ensures OnStep(p) ==> SnapVertex(p) == p
  {
    SnapToGridIdempotent(p.x);
    SnapToGridIdempotent(p.y);
  }

  /** dist(p, q) < k, for integer points and k >= 0. */
  predicate Near(p: Point, q: Point, k: int)
  {
    (p.x - q.x) * (p.x - q.x) + (p.y - q.y) * (p.y - q.y) < k * k
  }

  /** nearFirstVertex: false with no vertices, otherwise whether the click
      is strictly within CLOSE_DIST of the first one. */
  predicate NearFirstVertex(vertices: seq<Point>, x: int, y: int)
  {
    |vertices| > 0 && Near(Point(x, y), vertices[0], CloseDist)
  }

  /** No vertices means no closing click; a closing click lies less than
      CLOSE_DIST from the first vertex on each axis, and any click within 7
      of it on both axes (7 * 7 + 7 * 7 < 10 * 10) closes. */
  lemma NearFirstVertexBounds(vertices: seq<Point>, x: int, y: int)
    ensures |vertices| == 0 ==> !NearFirstVertex(vertices, x, y)
    ensures NearFirstVertex(vertices, x, y) ==>
      Abs(x - vertices[0].x) < CloseDist && Abs(y - vertices[0].y) < CloseDist
    ensures |vertices| > 0 && Abs(x - vertices[0].x) <= 7 && Abs(y - vertices[0].y) <= 7 ==>
      NearFirstVertex(vertices, x, y)
  {
    if |vertices| > 0 {
      var dx, dy := x - vertices[0].x, y - vertices[0].y;
      SquareBounds(dx);
      SquareBounds(dy);
    }
  }

  lemma SquareBounds(d: int)
    ensures d * d >= 0
    ensures Abs(d) >= 10 ==> d * d >= 100
    ensures Abs(d) <= 7 ==> d * d <= 49
  {
    if Abs(d) >= 10 {
      assert Abs(d) * Abs(d) >= 10 * Abs(d) >= 100;
    } else if Abs(d) <= 7 {
      assert Abs(d) * Abs(d) <= 7 * Abs(d) <= 49;
    }
    assert d * d == Abs(d) * Abs(d);
  }

  /** A sector of the vertex editor carries its own id. */
  datatype VSector = VSector(id: int, walls: seq<Wall>, floorHeight: real, ceilingHeight: real)

  /** The snapped endpoints of a wall list in scan order: p1 then p2 of
      each wall. */
  function WallEnds(ws: seq<Wall>): (e: seq<Point>)
    ensures |e| == 2 * |ws|
  {
    if |ws| == 0 then [] else [EndOf(ws[0], 0), EndOf(ws[0], 1)] + WallEnds(ws[1..])
  }

  /** Entry k of the endpoint list is endpoint k % 2 of wall k / 2. */
  lemma {:induction false} WallEndsMeaning(ws: seq<Wall>)
    ensures forall k :: 0 <= k < |WallEnds(ws)| ==> WallEnds(ws)[k] == EndOf(ws[k / 2], k % 2)
  {
    if |ws| > 0 {
      var rest := WallEnds(ws[1..]);
      WallEndsMeaning(ws[1..]);
      var e := WallEnds(ws);
      forall k | 2 <= k < |e|
        ensures e[k] == EndOf(ws[k / 2], k % 2)
      {
        assert e[k] == rest[k - 2];
        assert (k - 2) / 2 == k / 2 - 1 && (k - 2) % 2 == k % 2;
      }
    }
  }

  /** The snapped first (b == 0) or second endpoint of a wall. */
  function EndOf(x: Wall, b: int): Point
  {
    if b == 0 then SnapVertex(x.p1) else SnapVertex(x.p2)
  }

  /** The snapped endpoints of every wall of every sector, in scan order. */
  function Endpoints(ss: seq<VSector>): seq<Point>
  {
    if |ss| == 0 then [] else WallEnds(ss[0].walls) + Endpoints(ss[1..])
  }

  /** e[k] is the first entry of e near p. */
  predicate IsFirstNear(e: seq<Point>, p: Point, k: int)
  {
    0 <= k < |e| && Near(p, e[k], SnapDist) && forall i :: 0 <= i < k ==> !Near(p, e[i], SnapDist)
  }

  /** The reference search: the first entry of a flat list near p. */
  function FirstNear(e: seq<Point>, p: Point): (r: Option<Point>)
    ensures r.Some? ==> exists k :: IsFirstNear(e, p, k) && r.value == e[k]
    ensures r.None? ==> forall k :: 0 <= k < |e| ==> !Near(p, e[k], SnapDist)
  {
    if |e| == 0 then None
    else if Near(p, e[0], SnapDist) then (assert IsFirstNear(e, p, 0); Some(e[0]))
    else
      var r := FirstNear(e[1..], p);
      if r.Some? then
        var k :| IsFirstNear(e[1..], p, k) && r.value == e[1..][k];
        assert IsFirstNear(e, p, k + 1);
        r
      else r
  }

  /** Searching a concatenation searches the first part, then the second. */
  lemma {:induction false} FirstNearAppend(a: seq<Point>, b: seq<Point>, p: Point)
    ensures FirstNear(a + b, p) == if FirstNear(a, p).Some? then FirstNear(a, p) else FirstNear(b, p)
  {
    if |a| > 0 {
      assert (a + b)[1..] == a[1..] + b;
      FirstNearAppend(a[1..], b, p);
    } else {
      assert a + b == b;
    }
  }

  /** The inner loop of snapToExistingVertices over one sector's walls:
      the snapped p1 is looked at before the snapped p2. */
  function ScanWalls(ws: seq<Wall>, p: Point): (r: Option<Point>)
    ensures r == FirstNear(WallEnds(ws), p)
  {
    if |ws| == 0 then None
    else
      var v1, v2 := EndOf(ws[0], 0), EndOf(ws[0], 1);
      var e := WallEnds(ws);
      assert e == [v1] + ([v2] + WallEnds(ws[1..]));
      assert e[1..] == [v2] + WallEnds(ws[1..]);
      if Near(p, v1, SnapDist) then Some(v1)
      else if Near(p, v2, SnapDist) then Some(v2)
      else ScanWalls(ws[1..], p)
  }

  /** The outer loop over sectors. */
  function ScanSectors(ss: seq<VSector>, p: Point): (r: Option<Point>)
    ensures r == FirstNear(Endpoints(ss), p)
  {
    if |ss| == 0 then None
    else
      FirstNearAppend(WallEnds(ss[0].walls), Endpoints(ss[1..]), p);
      match ScanWalls(ss[0].walls, p)
      case Some(v) => Some(v)
      case None => ScanSectors(ss[1..], p)
  }

  /** r is the first entry of e near p, or p itself when none is. */
  predicate SnapsToEndpoint(e: seq<Point>, p: Point, r: Point)
  {
    || (exists k :: 0 <= k < |e| && IsFirstNear(e, p, k) && r == e[k])
    || ((forall k :: 0 <= k < |e| ==> !Near(p, e[k], SnapDist)) && r == p)
  }

  /** snapToExistingVertices: the first snapped existing endpoint strictly
      within SNAP_DIST of the snapped click, otherwise the snapped click. */
  function SnapToExistingVertices(ss: seq<VSector>, x: int, y: int): (r: Point)
    ensures OnStep(r)
    ensures SnapsToEndpoint(Endpoints(ss), SnapVertex(Point(x, y)), r)
  {
    var p := SnapVertex(Point(x, y));
    var found := ScanSectors(ss, p);
    EndpointsOnStep(ss);
    if found.Some? then found.value else p
  }

  lemma {:induction false} EndpointsOnStep(ss: seq<VSector>)
    ensures forall k :: 0 <= k < |Endpoints(ss)| ==> OnStep(Endpoints(ss)[k])
  {
    if |ss| > 0 {
      EndpointsOnStep(ss[1..]);
      WallEndsMeaning(ss[0].walls);
      var a, b := WallEnds(ss[0].walls), Endpoints(ss[1..]);
      forall k | 0 <= k < |a + b|
        ensures OnStep((a + b)[k])
      {
        if k < |a| {
          assert a[k] == EndOf(ss[0].walls[k / 2], k % 2);
        } else {
          assert (a + b)[k] == b[k - |a|];
        }
      }
    }
  }
}
