/** The grid editor's map file (editor/edit.cpp, saveMap and loadMap). One
    sector is a header line "id wallCount floor ceiling", one line
    "x1 y1 x2 y2 isPortal adjoiningSector" per wall with coordinates in grid
    units, then a blank line. The file is a sequence of lines, each line a
    sequence of whitespace-separated tokens. */
module MapFormat {
  import opened Base
  import opened Geometry
  import opened Level
  import opened EditWorld

  /** A token of a line: an integer, or a number written with a fraction
      or an exponent. Only the height fields accept the latter. */
  datatype Token = Int(i: int) | Num(r: real)

  /** A line as std::getline returns it: empty, or the tokens of a
      non-empty line (a line of blanks has no tokens but is not empty). */
  datatype Line = Empty | Tokens(toks: seq<Token>)

  datatype Header = Header(id: int, wallCount: int, floorHeight: real, ceilingHeight: real)

  /** loadMap's verdict and the sectors it leaves behind. */
  datatype Load = Load(ok: bool, sectors: World)

  // ---------------------------------------------------------------------
  // Writing

  /** A height as `operator<<` prints it: a whole value without a
      fraction, so as an integer token, and any other value as a number. */
  function HeightToken(h: real): (t: Token)
    ensures ReadHeight(t) == h
    ensures t.Int? <==> h == h.Floor as real
  {
    if h == h.Floor as real then Int(h.Floor) else Num(h)
  }

  function HeaderLine(i: int, sec: Sector): Line
  {
    Tokens([Int(i), Int(|sec.walls|), HeightToken(sec.floorHeight), HeightToken(sec.ceilingHeight)])
  }

  /** Coordinates divided by GRID_SIZE with C++ truncation; the portal flag
      printed as 1 or 0. */
  function WallLine(x: Wall): Line
  {
    Tokens([Int(TruncDiv(x.p1.x, GridSize)), Int(TruncDiv(x.p1.y, GridSize)),
            Int(TruncDiv(x.p2.x, GridSize)), Int(TruncDiv(x.p2.y, GridSize)),
            Int(if x.isPortal then 1 else 0), Int(x.adjoiningSector)])
  }

  function WallLines(ws: seq<Wall>): (ls: seq<Line>)
    ensures |ls| == |ws|
    ensures forall j :: 0 <= j < |ws| ==> ls[j] == WallLine(ws[j])
  {
    seq(|ws|, j requires 0 <= j < |ws| => WallLine(ws[j]))
  }

  /** One sector's block: header, its walls, a blank line. */
  function SectorLines(i: int, sec: Sector): (ls: seq<Line>)
    ensures |ls| == |sec.walls| + 2
  {
    [HeaderLine(i, sec)] + WallLines(sec.walls) + [Empty]
  }

  /** The blocks of sectors i.. in order, numbered by position. */
  function SaveFrom(w: World, i: nat): (ls: seq<Line>)
    requires i <= |w|
    decreases |w| - i
  {
    if i == |w| then [] else SectorLines(i, w[i]) + SaveFrom(w, i + 1)
  }

  /** saveMap: the lines written for the whole world. */
  function SaveMap(w: World): seq<Line>
  {
    SaveFrom(w, 0)
  }

  // ---------------------------------------------------------------------
  // Reading

  /** A float extraction accepts any number token. */
  function ReadHeight(t: Token): real
  {
    match t
    case Int(i) => i as real
    case Num(r) => r
  }

  /** header >> sectorID >> wallCount >> floorH >> ceilH: two integers and
      two numbers; anything after them is ignored. */
  function ParseHeader(l: Line): (h: Option<Header>)
    ensures h.Some? <==> l.Tokens? && |l.toks| >= 4 && l.toks[0].Int? && l.toks[1].Int?
    ensures h.Some? ==> h.value.wallCount == l.toks[1].i
  {
    if l.Tokens? && |l.toks| >= 4 && l.toks[0].Int? && l.toks[1].Int? then
      Some(Header(l.toks[0].i, l.toks[1].i, ReadHeight(l.toks[2]), ReadHeight(l.toks[3])))
    else None
  }

  /** A wall line: six integers (more are ignored), coordinates multiplied
      back by GRID_SIZE, any non-zero flag meaning portal. */
  function ParseWall(l: Line): (x: Option<Wall>)
    ensures x.Some? <==> l.Tokens? && |l.toks| >= 6 && forall k :: 0 <= k < 6 ==> l.toks[k].Int?
    ensures x.Some? ==> WallOnGrid(x.value)
  {
    if l.Tokens? && |l.toks| >= 6 && forall k :: 0 <= k < 6 ==> l.toks[k].Int? then
      var t := l.toks;
      Some(Wall(Point(t[0].i * GridSize, t[1].i * GridSize), Point(t[2].i * GridSize, t[3].i * GridSize),
                t[4].i != 0, t[5].i))
    else None
  }

  /** Reads every line as a wall; fails at the first malformed one. */
  function ParseWalls(ls: seq<Line>): (r: Option<seq<Wall>>)
    ensures r.Some? <==> forall j :: 0 <= j < |ls| ==> ParseWall(ls[j]).Some?
    ensures r.Some? ==> |r.value| == |ls| && forall j :: 0 <= j < |ls| ==> r.value[j] == ParseWall(ls[j]).value
  {
    if |ls| == 0 then Some([])
    else match ParseWall(ls[0])
      case None => None
      case Some(x) =>
        match ParseWalls(ls[1..])
        case None => None
        case Some(xs) => Some([x] + xs)
  }

  /** The read loop of loadMap over the remaining lines, with the sectors
      read so far in acc. Empty lines before a header are skipped; a bad
      header, a bad wall line or the end of the file inside a sector stops
      with false and keeps acc; a negative wall count reads no walls; after
      the walls one line is consumed whatever it holds. The result always
      extends acc. */
  function ParseFrom(ls: seq<Line>, acc: World): (r: Load)
    decreases |ls|
    ensures |acc| <= |r.sectors| && r.sectors[..|acc|] == acc
    ensures |r.sectors| <= |acc| + |ls|
  {
    if |ls| == 0 then Load(true, acc)
    else if ls[0].Empty? then ParseFrom(ls[1..], acc)
    else
      match ParseHeader(ls[0])
      case None => Load(false, acc)
      case Some(h) =>
        var n := Max(h.wallCount, 0);
        if |ls| < 1 + n then Load(false, acc)
        else
          match ParseWalls(ls[1..1 + n])
          case None => Load(false, acc)
          case Some(ws) =>
            var acc' := acc + [Sector(ws, h.floorHeight, h.ceilingHeight)];
            if |ls| == 1 + n then Load(true, acc')
            else ParseFrom(ls[2 + n..], acc')
  }

  /** loadMap: a file that cannot be opened leaves the world as it was;
      otherwise the world is cleared first and rebuilt from the file, so a
      failure part-way keeps only the sectors read completely. */
  function LoadMap(prior: World, file: Option<seq<Line>>): (r: Load)
    ensures file.None? ==> r == Load(false, prior)
    ensures file.Some? ==> |r.sectors| <= |file.value|
  {
    match file
    case None => Load(false, prior)
    case Some(ls) => ParseFrom(ls, [])
  }

  // ---------------------------------------------------------------------
  // Round trip

  /** What a wall becomes after a save and a load: each coordinate is
      truncated toward zero to the grid. */
  function QuantizeWall(x: Wall): (r: Wall)
    ensures r.p1 == GridSnap(x.p1.x, x.p1.y) && r.p2 == GridSnap(x.p2.x, x.p2.y)
    ensures r.isPortal == x.isPortal && r.adjoiningSector == x.adjoiningSector
  {
    Wall(GridSnap(x.p1.x, x.p1.y), GridSnap(x.p2.x, x.p2.y), x.isPortal, x.adjoiningSector)
  }

  function QuantizeWalls(ws: seq<Wall>): (r: seq<Wall>)
    ensures |r| == |ws|
    ensures forall j :: 0 <= j < |ws| ==> r[j] == QuantizeWall(ws[j])
  {
    seq(|ws|, j requires 0 <= j < |ws| => QuantizeWall(ws[j]))
  }

  function QuantizeSector(sec: Sector): Sector
  {
    sec.(walls := QuantizeWalls(sec.walls))
  }

  function Quantize(w: World): (r: World)
    ensures |r| == |w|
    ensures forall i :: 0 <= i < |w| ==> r[i] == QuantizeSector(w[i])
  {
    seq(|w|, i requires 0 <= i < |w| => QuantizeSector(w[i]))
  }

  /** Every wall endpoint lies on the grid: what every world the editor
      builds satisfies. */
  predicate Aligned(w: World)
  {
    AllWalls(w, WallOnGrid)
  }

  /** A written wall line reads back as the quantized wall. */
  lemma WallLineRoundTrip(x: Wall)
    ensures ParseWall(WallLine(x)) == Some(QuantizeWall(x))
  {
    var t := WallLine(x).toks;
    assert forall k :: 0 <= k < 6 ==> t[k].Int?;
  }

  lemma WallLinesRoundTrip(ws: seq<Wall>)
    ensures ParseWalls(WallLines(ws)) == Some(QuantizeWalls(ws))
  {
    var ls := WallLines(ws);
    forall j | 0 <= j < |ls|
      ensures ParseWall(ls[j]) == Some(QuantizeWall(ws[j]))
    {
      WallLineRoundTrip(ws[j]);
    }
    assert ParseWalls(ls).Some?;
    assert ParseWalls(ls).value == QuantizeWalls(ws);
  }

  /** Reading one written sector block, followed by anything, adds the
      quantized sector and continues after the block. */
  lemma SectorBlockRoundTrip(i: int, sec: Sector, rest: seq<Line>, acc: World)
    ensures ParseFrom(SectorLines(i, sec) + rest, acc) == ParseFrom(rest, acc + [QuantizeSector(sec)])
  {
    var ls := SectorLines(i, sec) + rest;
    var n := |sec.walls|;
    assert ls[0] == HeaderLine(i, sec);
    assert ParseHeader(ls[0]) == Some(Header(i, n, sec.floorHeight, sec.ceilingHeight));
    assert ls[1..1 + n] == WallLines(sec.walls);
    WallLinesRoundTrip(sec.walls);
    assert ls[2 + n..] == rest;
  }

  /** Reading the lines written for sectors i.. adds them all, quantized,
      and continues with whatever follows. */
  lemma {:induction false} SaveFromRoundTrip(w: World, i: nat, rest: seq<Line>, acc: World)
    requires i <= |w|
    decreases |w| - i
    ensures ParseFrom(SaveFrom(w, i) + rest, acc) == ParseFrom(rest, acc + Quantize(w[i..]))
  {
    if i == |w| {
      assert SaveFrom(w, i) + rest == rest;
      assert acc + Quantize(w[i..]) == acc;
    } else {
      var acc' := acc + [QuantizeSector(w[i])];
      SaveFromStep(w, i, rest);
      SectorBlockRoundTrip(i, w[i], SaveFrom(w, i + 1) + rest, acc);
      SaveFromRoundTrip(w, i + 1, rest, acc');
      QuantizeStep(w, i, acc);
    }
  }

  lemma SaveFromStep(w: World, i: nat, rest: seq<Line>)
    requires i < |w|
    ensures SaveFrom(w, i) + rest == SectorLines(i, w[i]) + (SaveFrom(w, i + 1) + rest)
  {
  }

  lemma QuantizeStep(w: World, i: nat, acc: World)
    requires i < |w|
    ensures acc + [QuantizeSector(w[i])] + Quantize(w[i + 1..]) == acc + Quantize(w[i..])
  {
    var a := acc + [QuantizeSector(w[i])] + Quantize(w[i + 1..]);
    var b := acc + Quantize(w[i..]);
    assert |a| == |b|;
    forall k | 0 <= k < |a|
      ensures a[k] == b[k]
    {
      if k > |acc| {
        assert a[k] == Quantize(w[i + 1..])[k - |acc| - 1];
        assert w[i + 1..][k - |acc| - 1] == w[i..][k - |acc|];
      }
    }
  }

  /** Loading what was saved succeeds and gives back every sector, in
      order, with its heights, its walls' portal flags and adjoining
      indices, and its coordinates truncated to the grid. */
  lemma SaveLoadRoundTrip(prior: World, w: World)
    ensures LoadMap(prior, Some(SaveMap(w))) == Load(true, Quantize(w))
  {
    SaveFromRoundTrip(w, 0, [], []);
    assert SaveMap(w) + [] == SaveMap(w);
    assert [] + Quantize(w[0..]) == Quantize(w);
  }

  /** Quantizing changes nothing in a grid-aligned world. */
  lemma QuantizeAligned(w: World)
    requires Aligned(w)
    ensures Quantize(w) == w
  {
    forall i | 0 <= i < |w|
      ensures QuantizeSector(w[i]) == w[i]
    {
      forall j | 0 <= j < |w[i].walls|
        ensures QuantizeWall(w[i].walls[j]) == w[i].walls[j]
      {
        var x := w[i].walls[j];
        SnapCoordIdempotent(x.p1.x);
        SnapCoordIdempotent(x.p1.y);
        SnapCoordIdempotent(x.p2.x);
        SnapCoordIdempotent(x.p2.y);
      }
    }
  }

  /** For a grid-aligned world the round trip is exact. */
  lemma SaveLoadAligned(prior: World, w: World)
    requires Aligned(w)
    ensures LoadMap(prior, Some(SaveMap(w))) == Load(true, w)
  {
    SaveLoadRoundTrip(prior, w);
    QuantizeAligned(w);
  }

  // ---------------------------------------------------------------------
  // Parser behaviour

  /** Any number of empty lines before a header are skipped. */
  lemma {:induction false} EmptyLinesSkipped(k: nat, ls: seq<Line>, acc: World)
    ensures ParseFrom(seq(k, _ => Empty) + ls, acc) == ParseFrom(ls, acc)
  {
    if k > 0 {
      var ls' := seq(k, _ => Empty) + ls;
      assert ls'[0] == Empty;
      assert ls'[1..] == seq(k - 1, _ => Empty) + ls;
      EmptyLinesSkipped(k - 1, ls, acc);
    } else {
      assert seq(k, _ => Empty) + ls == ls;
    }
  }

  /** The sector id in the header plays no part in loading. */
  lemma HeaderIdIgnored(a: int, b: int, more: seq<Token>, rest: seq<Line>, acc: World)
    ensures ParseFrom([Tokens([Int(a)] + more)] + rest, acc) == ParseFrom([Tokens([Int(b)] + more)] + rest, acc)
  {
    var la, lb := [Tokens([Int(a)] + more)] + rest, [Tokens([Int(b)] + more)] + rest;
    assert la[1..] == lb[1..] && |la| == |lb|;
    assert ParseHeader(la[0]).Some? == ParseHeader(lb[0]).Some?;
    if ParseHeader(la[0]).Some? {
      var ha, hb := ParseHeader(la[0]).value, ParseHeader(lb[0]).value;
      assert ha.wallCount == hb.wallCount && ha.floorHeight == hb.floorHeight
        && ha.ceilingHeight == hb.ceilingHeight;
      var n := Max(ha.wallCount, 0);
      if |la| >= 1 + n {
        assert la[1..1 + n] == lb[1..1 + n];
      }
      if |la| > 1 + n {
        assert la[2 + n..] == lb[2 + n..];
      }
    }
  }

  /** The line after a sector's walls is consumed whatever it contains. */
  lemma SeparatorIgnored(h: Line, walls: seq<Line>, sep: Line, rest: seq<Line>, acc: World)
    requires ParseHeader(h).Some? && ParseHeader(h).value.wallCount == |walls|
    ensures ParseFrom([h] + walls + [sep] + rest, acc) == ParseFrom([h] + walls + [Empty] + rest, acc)
  {
    var n := |walls|;
    var la, lb := [h] + walls + [sep] + rest, [h] + walls + [Empty] + rest;
    assert la[0] == h && lb[0] == h;
    assert la[1..1 + n] == walls && lb[1..1 + n] == walls;
    assert la[2 + n..] == rest && lb[2 + n..] == rest;
  }

  /** A line of blanks where a header should be stops the load with false;
      the sectors read before it are kept and nothing of the prior world
      survives. */
  lemma BlankHeaderFailsAfterSavedPrefix(prior: World, w: World, toks: seq<Token>, rest: seq<Line>)
    requires |toks| < 4
    ensures LoadMap(prior, Some(SaveMap(w) + [Tokens(toks)] + rest)) == Load(false, Quantize(w))
  {
    SaveFromRoundTrip(w, 0, [Tokens(toks)] + rest, []);
    assert SaveMap(w) + [Tokens(toks)] + rest == SaveMap(w) + ([Tokens(toks)] + rest);
    assert [] + Quantize(w[0..]) == Quantize(w);
  }

  /** A header announcing more walls than the file still holds stops the
      load with false and keeps the sectors read before it. */
  lemma TruncatedSectorFails(h: Line, walls: seq<Line>, acc: World)
    requires ParseHeader(h).Some? && ParseHeader(h).value.wallCount > |walls|
    ensures ParseFrom([h] + walls, acc) == Load(false, acc)
  {
    assert ([h] + walls)[0] == h;
  }

  /** A malformed wall line inside a sector stops the load with false and
      keeps only the sectors before it. */
  lemma MalformedWallFails(h: Line, walls: seq<Line>, k: nat, rest: seq<Line>, acc: World)
    requires ParseHeader(h).Some? && ParseHeader(h).value.wallCount == |walls|
    requires k < |walls| && ParseWall(walls[k]).None?
    ensures ParseFrom([h] + walls + rest, acc) == Load(false, acc)
  {
    var ls := [h] + walls + rest;
    assert ls[0] == h;
    assert ls[1..1 + |walls|] == walls;
  }
}
