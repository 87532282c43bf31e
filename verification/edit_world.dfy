/** The grid editor's world (editor/edit.cpp): sectors of walls identified by
    position, (sector, wall) handles in place of the source's wall pointers,
    grid snapping, and the first-match wall searches behind the mouse
    handlers. */
module EditWorld {
  import opened Base
  import opened Geometry
  import opened Level

  /** GRID_SIZE of the grid editor. */
  const GridSize: int := 32

  /** Floor and ceiling heights are only copied, never computed with. */
  datatype Sector = Sector(walls: seq<Wall>, floorHeight: real, ceilingHeight: real)

  type World = seq<Sector>

  /** A wall handle: which sector, and which slot of its wall list. */
  datatype WallRef = WallRef(sector: nat, wall: nat)

  predicate ValidRef(w: World, r: WallRef)
  {
    r.sector < |w| && r.wall < |w[r.sector].walls|
  }

  function WallAt(w: World, r: WallRef): Wall
    requires ValidRef(w, r)
  {
    w[r.sector].walls[r.wall]
  }

  /** C++ integer division, which truncates toward zero. */
  function TruncDiv(a: int, b: int): (q: int)
    requires b > 0
    ensures a >= 0 ==> 0 <= a - b * q < b
    ensures a < 0 ==> -b < a - b * q <= 0
  {
    if a >= 0 then a / b else -((-a) / b)
  }

  /** One coordinate of gridSnap: (v / GRID_SIZE) * GRID_SIZE. */
  function SnapCoord(v: int): (r: int)
    ensures r % GridSize == 0
    ensures v >= 0 ==> r <= v < r + GridSize
    ensures v < 0 ==> r - GridSize < v <= r
  {
    TruncDiv(v, GridSize) * GridSize
  }

  /** gridSnap: both coordinates truncated toward zero to the grid. */
  function GridSnap(x: int, y: int): Point
  {
    Point(SnapCoord(x), SnapCoord(y))
  }

  /** The snapped value is the only grid multiple that lies between zero
      and v and within one grid step of v, so SnapCoord is the
      truncate-toward-zero rounding and nothing else. */
  lemma SnapCoordUnique(v: int, m: int)
    requires m % GridSize == 0
    requires v >= 0 ==> m <= v < m + GridSize
    requires v < 0 ==> m - GridSize < v <= m
    ensures m == SnapCoord(v)
  {
    var r := SnapCoord(v);
    assert (m - r) % GridSize == 0;
    assert -GridSize < m - r < GridSize;
  }

  /** Snapping is idempotent, and grid points are fixed points. */
  lemma SnapCoordIdempotent(v: int)
    ensures SnapCoord(SnapCoord(v)) == SnapCoord(v)
    ensures v % GridSize == 0 ==> SnapCoord(v) == v
  {
    var r := SnapCoord(v);
    SnapCoordUnique(r, r);
    if v % GridSize == 0 {
      SnapCoordUnique(v, v);
    }
  }

  /** Both components of gridSnap are grid multiples, and snapping a
      snapped point changes nothing. */
  lemma GridSnapIdempotent(x: int, y: int)
    ensures OnGrid(GridSnap(x, y))
    ensures var p := GridSnap(x, y); GridSnap(p.x, p.y) == p
  {
    SnapCoordIdempotent(x);
    SnapCoordIdempotent(y);
  }

  /** A point on the grid: both coordinates are multiples of GRID_SIZE. */
  predicate OnGrid(p: Point)
  {
    p.x % GridSize == 0 && p.y % GridSize == 0
  }

  predicate WallOnGrid(x: Wall)
  {
    OnGrid(x.p1) && OnGrid(x.p2)
  }

  /** Every wall of every sector satisfies P. */
  predicate AllWalls(w: World, P: Wall -> bool)
  {
    forall i, j :: 0 <= i < |w| && 0 <= j < |w[i].walls| ==> P(w[i].walls[j])
  }

  /** Replaces the wall at r by x; every other wall and sector is kept. */
  function SetWall(w: World, r: WallRef, x: Wall): (w': World)
    requires ValidRef(w, r)
    ensures |w'| == |w| && ValidRef(w', r) && WallAt(w', r) == x
    ensures forall s :: 0 <= s < |w| && s != r.sector ==> w'[s] == w[s]
    ensures |w'[r.sector].walls| == |w[r.sector].walls|
    ensures w'[r.sector].floorHeight == w[r.sector].floorHeight
    ensures w'[r.sector].ceilingHeight == w[r.sector].ceilingHeight
    ensures forall j :: 0 <= j < |w[r.sector].walls| && j != r.wall ==>
      w'[r.sector].walls[j] == w[r.sector].walls[j]
  {
    w[r.sector := w[r.sector].(walls := w[r.sector].walls[r.wall := x])]
  }

  /** vector::erase at k followed by vector::insert of pieces at k. */
  function Splice(ws: seq<Wall>, k: nat, pieces: seq<Wall>): (r: seq<Wall>)
    requires k < |ws|
    ensures |r| == |ws| - 1 + |pieces|
    ensures r[..k] == ws[..k]
    ensures r[k..k + |pieces|] == pieces
    ensures r[k + |pieces|..] == ws[k + 1..]
  {
    ws[..k] + pieces + ws[k + 1..]
  }

  /** Replaces the wall at r, in place, by the given pieces. */
  function ReplaceWall(w: World, r: WallRef, pieces: seq<Wall>): (w': World)
    requires ValidRef(w, r)
    ensures |w'| == |w|
    ensures forall s :: 0 <= s < |w| && s != r.sector ==> w'[s] == w[s]
    ensures w'[r.sector].walls == Splice(w[r.sector].walls, r.wall, pieces)
    ensures w'[r.sector].floorHeight == w[r.sector].floorHeight
    ensures w'[r.sector].ceilingHeight == w[r.sector].ceilingHeight
  {
    w[r.sector := w[r.sector].(walls := Splice(w[r.sector].walls, r.wall, pieces))]
  }

  /** (s, j) comes before r in the scan order: sectors first, then walls. */
  predicate Before(s: int, j: int, r: WallRef)
  {
    s < r.sector || (s == r.sector && j < r.wall)
  }

  /** First index of ws at or after k whose wall satisfies p(s, _), or -1. */
  function FirstWallFrom(ws: seq<Wall>, s: nat, p: (nat, Wall) -> bool, k: nat): (j: int)
    requires k <= |ws|
    decreases |ws| - k
    ensures j == -1 || k <= j < |ws|
    ensures j >= 0 ==> p(s, ws[j]) && forall i :: k <= i < j ==> !p(s, ws[i])
    ensures j == -1 ==> forall i :: k <= i < |ws| ==> !p(s, ws[i])
  {
    if k == |ws| then -1
    else if p(s, ws[k]) then k
    else FirstWallFrom(ws, s, p, k + 1)
  }

  /** The first wall, scanning sector i.. in order and each sector's walls
      in order, that satisfies p (given its sector index). */
  function FindFrom(w: World, p: (nat, Wall) -> bool, i: nat): (r: Option<WallRef>)
    requires i <= |w|
    decreases |w| - i
    ensures r.Some? ==> ValidRef(w, r.value) && i <= r.value.sector
    ensures r.Some? ==> p(r.value.sector, WallAt(w, r.value))
    ensures r.Some? ==> forall s, j :: i <= s < |w| && 0 <= j < |w[s].walls| && Before(s, j, r.value) ==>
      !p(s, w[s].walls[j])
    ensures r.None? ==> forall s, j :: i <= s < |w| && 0 <= j < |w[s].walls| ==> !p(s, w[s].walls[j])
  {
    if i == |w| then None
    else
      var j := FirstWallFrom(w[i].walls, i, p, 0);
      if j >= 0 then Some(WallRef(i, j))
      else FindFrom(w, p, i + 1)
  }

  /** The first wall in scan order satisfying p. */
  function FindFirst(w: World, p: (nat, Wall) -> bool): (r: Option<WallRef>)
    ensures r.Some? ==> ValidRef(w, r.value) && p(r.value.sector, WallAt(w, r.value))
    ensures r.Some? ==> forall s, j :: 0 <= s < |w| && 0 <= j < |w[s].walls| && Before(s, j, r.value) ==>
      !p(s, w[s].walls[j])
    ensures r.None? ==> forall s, j :: 0 <= s < |w| && 0 <= j < |w[s].walls| ==> !p(s, w[s].walls[j])
  {
    FindFrom(w, p, 0)
  }

  /** findWallAt: the first wall (in sector order, then wall order) that the
      mouse is within HIT_RADIUS of. Closeness is the parameter `hit`; the
      search returns the first match, not the closest one. */
  function FindWallAt(w: World, hit: Wall -> bool): (r: Option<WallRef>)
    ensures r.Some? ==> ValidRef(w, r.value) && hit(WallAt(w, r.value))
    ensures r.Some? ==> forall s, j :: 0 <= s < |w| && 0 <= j < |w[s].walls| && Before(s, j, r.value) ==>
      !hit(w[s].walls[j])
    ensures r.None? ==> forall s, j :: 0 <= s < |w| && 0 <= j < |w[s].walls| ==> !hit(w[s].walls[j])
  {
    FindFirst(w, (s: nat, x: Wall) => hit(x))
  }

  /** findHoveredSector: the first sector having some wall the mouse is
      near, or -1. */
  function FindHoveredSector(w: World, hit: Wall -> bool): (h: int)
    ensures -1 <= h < |w|
    ensures h >= 0 ==> exists j :: 0 <= j < |w[h].walls| && hit(w[h].walls[j])
    ensures h >= 0 ==> forall s, j :: 0 <= s < h && 0 <= j < |w[s].walls| ==> !hit(w[s].walls[j])
    ensures h == -1 ==> forall s, j :: 0 <= s < |w| && 0 <= j < |w[s].walls| ==> !hit(w[s].walls[j])
  {
    match FindWallAt(w, hit)
    case Some(r) => r.sector
    case None => -1
  }

  /** Hovering and wall picking agree: the hovered sector is the sector of
      the wall a right-click would pick. */
  lemma HoveredIsSectorOfPickedWall(w: World, hit: Wall -> bool)
    ensures FindHoveredSector(w, hit) == -1 <==> FindWallAt(w, hit).None?
    ensures FindWallAt(w, hit).Some? ==> FindHoveredSector(w, hit) == FindWallAt(w, hit).value.sector
  {
  }
}
