/** Portal linking in the vertex editor (editor/test.cpp, linkPortals): a
    newly closed sector is compared wall by wall with every other sector;
    an existing wall on the same snapped segment becomes a portal into the
    new sector, and the new sector's copy of that segment is removed. */
module VertexLink {
  import opened Base
  import opened Geometry
  import opened Level
  import opened VertexSnap

  /** A wall with both endpoints snapped to the grid. */
  function SnapWall(x: Wall): (r: Wall)
    ensures r.p1 == SnapVertex(x.p1) && r.p2 == SnapVertex(x.p2)
    ensures r.isPortal == x.isPortal && r.adjoiningSector == x.adjoiningSector
  {
    x.(p1 := SnapVertex(x.p1), p2 := SnapVertex(x.p2))
  }

  /** The sameSegment test: the snapped endpoints agree, in the same or in
      the opposite order. On integer points the 0.001 tolerance is exact
      equality. */
  predicate SameSegment(a: Wall, b: Wall)
  {
    WallsExactlyMatch(SnapWall(a), SnapWall(b))
  }

  /** The test is order-independent: a wall matches itself, its reversal,
      and the relation is symmetric. */
  lemma SameSegmentIsOrderFree(a: Wall, b: Wall)
    ensures SameSegment(a, a)
    ensures SameSegment(a, b) == SameSegment(b, a)
    ensures SameSegment(a, Reversed(b)) == SameSegment(a, b)
    ensures SameSegment(a, Reversed(a))
  {
  }

  /** How many walls of ews lie on the same segment as x. */
  function CountIn(x: Wall, ews: seq<Wall>): (c: nat)
    ensures c <= |ews|
  {
    if |ews| == 0 then 0
    else (if SameSegment(x, ews[0]) then 1 else 0) + CountIn(x, ews[1..])
  }

  /** How many walls, over all sectors other than newId, x matches. */
  function Matches(ss: seq<VSector>, newId: int, x: Wall): nat
  {
    if |ss| == 0 then 0
    else (if ss[0].id == newId then 0 else CountIn(x, ss[0].walls)) + Matches(ss[1..], newId, x)
  }

  /** A count of zero means no wall of the list matches. */
  lemma {:induction false} CountInMeaning(x: Wall, ews: seq<Wall>)
    ensures CountIn(x, ews) == 0 <==> forall j :: 0 <= j < |ews| ==> !SameSegment(x, ews[j])
  {
    if |ews| > 0 {
      CountInMeaning(x, ews[1..]);
      assert forall j :: 1 <= j < |ews| ==> ews[j] == ews[1..][j - 1];
    }
  }

  /** A match count of zero means no wall of another sector matches. */
  lemma {:induction false} MatchesMeaning(ss: seq<VSector>, newId: int, x: Wall)
    ensures Matches(ss, newId, x) == 0 <==>
      forall s, j :: 0 <= s < |ss| && ss[s].id != newId && 0 <= j < |ss[s].walls| ==> !SameSegment(x, ss[s].walls[j])
  {
    if |ss| > 0 {
      MatchesMeaning(ss[1..], newId, x);
      CountInMeaning(x, ss[0].walls);
      assert forall s :: 1 <= s < |ss| ==> ss[s] == ss[1..][s - 1];
    }
  }

  /** The id of the last sector (in scan order) other than newId holding a
      wall that matches x, or dflt when there is none: the value the new
      wall's adjoiningSector is left with. */
  function LastMatchId(ss: seq<VSector>, newId: int, x: Wall, dflt: int): int
  {
    if |ss| == 0 then dflt
    else
      var d := if ss[0].id != newId && CountIn(x, ss[0].walls) > 0 then ss[0].id else dflt;
      LastMatchId(ss[1..], newId, x, d)
  }

  predicate MatchesSome(nw: seq<Wall>, y: Wall)
  {
    exists i :: 0 <= i < |nw| && SameSegment(nw[i], y)
  }

  /** An existing sector after the scan: each wall matching some new wall
      is a portal into newId; the new sector's own id is skipped. */
  function MarkSector(sec: VSector, nw: seq<Wall>, newId: int): (r: VSector)
    ensures r.id == sec.id && r.floorHeight == sec.floorHeight && r.ceilingHeight == sec.ceilingHeight
    ensures |r.walls| == |sec.walls|
    ensures forall j :: 0 <= j < |sec.walls| ==>
      r.walls[j] == if sec.id != newId && MatchesSome(nw, sec.walls[j])
                    then sec.walls[j].(isPortal := true, adjoiningSector := newId)
                    else sec.walls[j]
  {
    if sec.id == newId then sec
    else
      sec.(walls := seq(|sec.walls|, j requires 0 <= j < |sec.walls| =>
        if MatchesSome(nw, sec.walls[j]) then sec.walls[j].(isPortal := true, adjoiningSector := newId)
        else sec.walls[j]))
  }

  /** A new wall after the scan: a matched wall is a portal into the last
      sector it matched; an unmatched one is untouched. */
  function MarkNewWall(x: Wall, ss: seq<VSector>, newId: int): (r: Wall)
    ensures Matches(ss, newId, x) == 0 ==> r == x
    ensures Matches(ss, newId, x) > 0 ==> r.isPortal && r.p1 == x.p1 && r.p2 == x.p2
  {
    if Matches(ss, newId, x) > 0
    then x.(isPortal := true, adjoiningSector := LastMatchId(ss, newId, x, x.adjoiningSector))
    else x
  }

  /** The new walls after the scan, before any removal. */
  function MarkNew(nw: seq<Wall>, ss: seq<VSector>, newId: int): (r: seq<Wall>)
    ensures |r| == |nw|
    ensures forall i :: 0 <= i < |nw| ==> r[i] == MarkNewWall(nw[i], ss, newId)
  {
    seq(|nw|, i requires 0 <= i < |nw| => MarkNewWall(nw[i], ss, newId))
  }

  /** c copies of i. */
  function Repeat(i: nat, c: nat): (r: seq<nat>)
    ensures |r| == c && forall k :: 0 <= k < c ==> r[k] == i
  {
    seq(c, k => i)
  }

  /** The indices pushed while scanning one existing sector: new wall i is
      pushed once per matching wall, before new wall i + 1 is looked at. */
  function SectorPushes(nw: seq<Wall>, ews: seq<Wall>, i: nat): seq<nat>
    requires i <= |nw|
    decreases |nw| - i
  {
    if i == |nw| then [] else Repeat(i, CountIn(nw[i], ews)) + SectorPushes(nw, ews, i + 1)
  }

  /** wallsToRemove after the scan over all existing sectors. */
  function Pushes(ss: seq<VSector>, nw: seq<Wall>, newId: int): seq<nat>
  {
    if |ss| == 0 then []
    else (if ss[0].id == newId then [] else SectorPushes(nw, ss[0].walls, 0)) + Pushes(ss[1..], nw, newId)
  }

  predicate Descending(s: seq<nat>)
  {
    forall a, b :: 0 <= a < b < |s| ==> s[a] >= s[b]
  }

  predicate StrictlyDescending(s: seq<nat>)
  {
    forall a, b :: 0 <= a < b < |s| ==> s[a] > s[b]
  }

  function InsertDescending(x: nat, s: seq<nat>): (r: seq<nat>)
    requires Descending(s)
    ensures Descending(r)
    ensures multiset(r) == multiset(s) + multiset{x}
  {
    if |s| == 0 then [x]
    else if x >= s[0] then [x] + s
    else
      var t := InsertDescending(x, s[1..]);
      assert s == [s[0]] + s[1..];
      forall k | 0 <= k < |t|
        ensures t[k] <= s[0]
      {
        assert t[k] in multiset(t);
        if t[k] != x {
          assert t[k] in multiset(s[1..]);
          var j :| 0 <= j < |s[1..]| && s[1..][j] == t[k];
          assert s[j + 1] == t[k];
        }
      }
      DescendingCons(s[0], t);
      [s[0]] + t
  }

  /** A head no smaller than any later entry extends a descending list. */
  lemma DescendingCons(h: nat, t: seq<nat>)
    requires Descending(t)
    requires forall k :: 0 <= k < |t| ==> t[k] <= h
    ensures Descending([h] + t)
  {
    forall a, b | 0 <= a < b < |[h] + t|
      ensures ([h] + t)[a] >= ([h] + t)[b]
    {
      if a > 0 {
        assert ([h] + t)[a] == t[a - 1];
      }
    }
  }

  /** std::sort with std::greater: a descending permutation. */
  function SortDescending(s: seq<nat>): (r: seq<nat>)
    ensures Descending(r)
    ensures multiset(r) == multiset(s)
  {
    if |s| == 0 then []
    else
      assert s == [s[0]] + s[1..];
      InsertDescending(s[0], SortDescending(s[1..]))
  }

  /** The erase loop: each index in turn is erased from the current list;
      erasing at or past the end is undefined behaviour (None). */
  function EraseAll(ws: seq<Wall>, idxs: seq<nat>): (r: Option<seq<Wall>>)
    ensures r.Some? ==> |r.value| == |ws| - |idxs|
    ensures (forall k :: 0 <= k < |idxs| ==> idxs[k] < |ws| - k) ==> r.Some?
  {
    if |idxs| == 0 then Some(ws)
    else if idxs[0] < |ws| then
      var r := EraseAll(ws[..idxs[0]] + ws[idxs[0] + 1..], idxs[1..]);
      assert forall k :: 1 <= k < |idxs| ==> idxs[1..][k - 1] == idxs[k];
      r
    else None
  }

  /** What linkPortals leaves: the existing sectors and the new sector. */
  datatype Linked = Linked(sectors: seq<VSector>, added: VSector)

  /** The existing sectors after the scan. */
  function MarkAll(ss: seq<VSector>, nw: seq<Wall>, newId: int): (r: seq<VSector>)
    ensures |r| == |ss|
    ensures forall s :: 0 <= s < |ss| ==> r[s] == MarkSector(ss[s], nw, newId)
  {
    seq(|ss|, s requires 0 <= s < |ss| => MarkSector(ss[s], nw, newId))
  }

  /** linkPortals as written: the removal list holds i once per match, so
      a new wall matching two existing walls has its index erased twice. */
  function LinkPortals(ss: seq<VSector>, sec: VSector): (r: Option<Linked>)
    ensures r.Some? ==> r.value.sectors == MarkAll(ss, sec.walls, sec.id)
    ensures r.Some? ==> r.value.added.id == sec.id
    ensures r.Some? ==> |r.value.added.walls| == |sec.walls| - |Pushes(ss, sec.walls, sec.id)|
  {
    var removal := SortDescending(Pushes(ss, sec.walls, sec.id));
    assert |removal| == |Pushes(ss, sec.walls, sec.id)| by {
      assert |multiset(removal)| == |multiset(Pushes(ss, sec.walls, sec.id))|;
    }
    match EraseAll(MarkNew(sec.walls, ss, sec.id), removal)
    case None => None
    case Some(ws) => Some(Linked(MarkAll(ss, sec.walls, sec.id), sec.(walls := ws)))
  }

  // ---------------------------------------------------------------------
  // Filtering by index

  /** ws without the entries whose index is in drop, in order. */
  function FilterIdx(ws: seq<Wall>, drop: set<nat>): (r: seq<Wall>)
    ensures |r| <= |ws|
    decreases |ws|
  {
    if |ws| == 0 then []
    else FilterIdx(ws[..|ws| - 1], drop) + (if |ws| - 1 in drop then [] else [ws[|ws| - 1]])
  }

  lemma {:induction false} FilterIdxTail(ws: seq<Wall>, drop: set<nat>, m: nat)
    requires m <= |ws|
    requires forall d :: d in drop ==> d < m
    decreases |ws|
    ensures FilterIdx(ws, drop) == FilterIdx(ws[..m], drop) + ws[m..]
  {
    if |ws| > m {
      var n := |ws| - 1;
      assert ws[..n][..m] == ws[..m];
      FilterIdxTail(ws[..n], drop, m);
      assert ws[..n][m..] + [ws[n]] == ws[m..];
    } else {
      assert ws[..m] == ws;
    }
  }

  lemma {:induction false} FilterIdxAgree(ws: seq<Wall>, a: set<nat>, b: set<nat>)
    requires forall d :: 0 <= d < |ws| ==> (d in a <==> d in b)
    decreases |ws|
    ensures FilterIdx(ws, a) == FilterIdx(ws, b)
  {
    if |ws| > 0 {
      FilterIdxAgree(ws[..|ws| - 1], a, b);
    }
  }

  /** Erasing strictly descending in-range indices one by one drops exactly
      those indices. */
  lemma {:induction false} EraseDescending(ws: seq<Wall>, d: seq<nat>)
    requires StrictlyDescending(d)
    requires forall k :: 0 <= k < |d| ==> d[k] < |ws|
    decreases |d|
    ensures EraseAll(ws, d) == Some(FilterIdx(ws, set k | k in d))
  {
    var all := set k | k in d;
    if |d| == 0 {
      assert all == {};
      FilterNothing(ws);
    } else {
      var x := d[0];
      var rest := set k | k in d[1..];
      assert forall k :: k in rest ==> k < x;
      assert forall k :: k in all ==> k == x || k in rest;
      assert x in all && forall k :: k in rest ==> k in all;
      EraseDescending(ws[..x] + ws[x + 1..], d[1..]);
      FilterDropLast(ws, x, all, rest);
    }
  }

  /** Filtering with nothing to drop keeps the list. */
  lemma FilterNothing(ws: seq<Wall>)
    ensures FilterIdx(ws, {}) == ws
  {
    FilterIdxTail(ws, {}, 0);
    assert ws[..0] == [] && ws[0..] == ws;
  }

  /** Erasing the largest index x of all first, then filtering by the rest,
      filters by all. */
  lemma FilterDropLast(ws: seq<Wall>, x: nat, all: set<nat>, rest: set<nat>)
    requires x < |ws| && x in all
    requires forall k :: k in rest ==> k < x
    requires forall k :: k in all ==> k == x || k in rest
    requires forall k :: k in rest ==> k in all
    ensures FilterIdx(ws[..x] + ws[x + 1..], rest) == FilterIdx(ws, all)
  {
    var ws' := ws[..x] + ws[x + 1..];
    FilterIdxTail(ws', rest, x);
    assert ws'[..x] == ws[..x] && ws'[x..] == ws[x + 1..];
    FilterIdxTail(ws, all, x + 1);
    assert ws[..x + 1][..x] == ws[..x];
    assert FilterIdx(ws[..x + 1], all) == FilterIdx(ws[..x], all);
    FilterIdxAgree(ws[..x], all, rest);
  }

  // ---------------------------------------------------------------------
  // The corrected linkPortals

  /** The new walls that match nothing, in order: what removing each
      matched wall once leaves. */
  function Unmatched(nw: seq<Wall>, ss: seq<VSector>, newId: int): (r: seq<Wall>)
    ensures |r| <= |nw|
    decreases |nw|
  {
    if |nw| == 0 then []
    else
      var n := |nw| - 1;
      Unmatched(nw[..n], ss, newId) + (if Matches(ss, newId, nw[n]) > 0 then [] else [nw[n]])
  }

  /** Unmatched keeps exactly the walls that match nothing: every wall it
      keeps is one of the new walls and matches nothing, and every new wall
      that matches nothing is kept. */
  lemma UnmatchedMeaning(nw: seq<Wall>, ss: seq<VSector>, newId: int)
    ensures forall k :: 0 <= k < |Unmatched(nw, ss, newId)| ==>
      Matches(ss, newId, Unmatched(nw, ss, newId)[k]) == 0 && Unmatched(nw, ss, newId)[k] in nw
    ensures forall i :: 0 <= i < |nw| && Matches(ss, newId, nw[i]) == 0 ==> nw[i] in Unmatched(nw, ss, newId)
  {
    UnmatchedKeepsOnlyUnmatched(nw, ss, newId);
    UnmatchedKeepsEveryUnmatched(nw, ss, newId);
  }

  lemma {:induction false} UnmatchedKeepsOnlyUnmatched(nw: seq<Wall>, ss: seq<VSector>, newId: int)
    decreases |nw|
    ensures forall k :: 0 <= k < |Unmatched(nw, ss, newId)| ==>
      Matches(ss, newId, Unmatched(nw, ss, newId)[k]) == 0 && Unmatched(nw, ss, newId)[k] in nw
  {
    if |nw| > 0 {
      var n := |nw| - 1;
      UnmatchedKeepsOnlyUnmatched(nw[..n], ss, newId);
      var front := Unmatched(nw[..n], ss, newId);
      var r := Unmatched(nw, ss, newId);
      assert r == front + (if Matches(ss, newId, nw[n]) > 0 then [] else [nw[n]]);
      forall k | 0 <= k < |r|
        ensures Matches(ss, newId, r[k]) == 0 && r[k] in nw
      {
        if k < |front| {
          assert r[k] == front[k];
          var i :| 0 <= i < n && nw[..n][i] == front[k];
          assert nw[..n][i] == nw[i];
        }
      }
    }
  }

  lemma {:induction false} UnmatchedKeepsEveryUnmatched(nw: seq<Wall>, ss: seq<VSector>, newId: int)
    decreases |nw|
    ensures forall i :: 0 <= i < |nw| && Matches(ss, newId, nw[i]) == 0 ==> nw[i] in Unmatched(nw, ss, newId)
  {
    if |nw| > 0 {
      var n := |nw| - 1;
      UnmatchedKeepsEveryUnmatched(nw[..n], ss, newId);
      var front := Unmatched(nw[..n], ss, newId);
      var r := Unmatched(nw, ss, newId);
      assert r == front + (if Matches(ss, newId, nw[n]) > 0 then [] else [nw[n]]);
      forall i | 0 <= i < |nw| && Matches(ss, newId, nw[i]) == 0
        ensures nw[i] in r
      {
        if i < n {
          assert nw[..n][i] == nw[i];
          assert nw[..n][i] in front;
        } else {
          assert r[|r| - 1] == nw[n];
        }
      }
    }
  }

  /** linkPortals with each matched new wall removed exactly once. The
      existing sectors are marked as in the original; the new sector keeps
      exactly its unmatched walls, all of them untouched. */
  function LinkPortalsFixed(ss: seq<VSector>, sec: VSector): (r: Linked)
    ensures r.sectors == MarkAll(ss, sec.walls, sec.id)
    ensures r.added == sec.(walls := Unmatched(sec.walls, ss, sec.id))
  {
    Linked(MarkAll(ss, sec.walls, sec.id), sec.(walls := Unmatched(sec.walls, ss, sec.id)))
  }

  /** Every existing wall matching a new wall becomes a portal into the new
      sector, no existing sector gains or loses walls, and every other wall
      is unchanged; the new sector keeps exactly the walls that matched
      nothing. */
  lemma LinkPortalsFixedMarksExisting(ss: seq<VSector>, sec: VSector, s: nat, j: nat)
    requires s < |ss| && j < |ss[s].walls|
    ensures var r := LinkPortalsFixed(ss, sec);
            && |r.sectors| == |ss|
            && |r.sectors[s].walls| == |ss[s].walls|
            && r.sectors[s].id == ss[s].id
            && (ss[s].id != sec.id && MatchesSome(sec.walls, ss[s].walls[j]) ==>
                  r.sectors[s].walls[j] == ss[s].walls[j].(isPortal := true, adjoiningSector := sec.id))
            && (ss[s].id == sec.id || !MatchesSome(sec.walls, ss[s].walls[j]) ==>
                  r.sectors[s].walls[j] == ss[s].walls[j])
    ensures forall k :: 0 <= k < |LinkPortalsFixed(ss, sec).added.walls| ==>
      Matches(ss, sec.id, LinkPortalsFixed(ss, sec).added.walls[k]) == 0
    ensures forall i :: 0 <= i < |sec.walls| && Matches(ss, sec.id, sec.walls[i]) == 0 ==>
      sec.walls[i] in LinkPortalsFixed(ss, sec).added.walls
  {
    UnmatchedMeaning(sec.walls, ss, sec.id);
  }

  // ---------------------------------------------------------------------
  // When each new wall matches at most one existing wall, the original
  // and the corrected linkPortals agree.

  lemma {:induction false} RepeatCount(i: nat, c: nat, x: nat)
    ensures multiset(Repeat(i, c))[x] == if x == i then c else 0
  {
    if c > 0 {
      assert Repeat(i, c) == Repeat(i, c - 1) + [i];
      RepeatCount(i, c - 1, x);
    } else {
      assert Repeat(i, c) == [];
    }
  }

  lemma {:induction false} SectorPushesCount(nw: seq<Wall>, ews: seq<Wall>, i: nat, x: nat)
    requires i <= |nw|
    decreases |nw| - i
    ensures multiset(SectorPushes(nw, ews, i))[x] == if i <= x < |nw| then CountIn(nw[x], ews) else 0
  {
    if i < |nw| {
      RepeatCount(i, CountIn(nw[i], ews), x);
      SectorPushesCount(nw, ews, i + 1, x);
    }
  }

  /** wallsToRemove holds index i exactly as often as new wall i matches. */
  lemma {:induction false} PushesCount(ss: seq<VSector>, nw: seq<Wall>, newId: int, x: nat)
    ensures multiset(Pushes(ss, nw, newId))[x] == if x < |nw| then Matches(ss, newId, nw[x]) else 0
  {
    if |ss| > 0 {
      PushesCount(ss[1..], nw, newId, x);
      if ss[0].id != newId {
        SectorPushesCount(nw, ss[0].walls, 0, x);
      }
    }
  }

  lemma TwoPositionsCount(s: seq<nat>, a: nat, b: nat)
    requires a < b < |s|
    ensures s[a] == s[b] ==> multiset(s)[s[a]] >= 2
  {
    assert s == s[..b] + s[b..];
    assert s[a] in s[..b];
    assert s[b] in s[b..];
  }

  lemma DescendingOnceIsStrict(s: seq<nat>)
    requires Descending(s)
    requires forall x :: multiset(s)[x] <= 1
    ensures StrictlyDescending(s)
  {
    forall a, b | 0 <= a < b < |s|
      ensures s[a] > s[b]
    {
      TwoPositionsCount(s, a, b);
    }
  }

  predicate AtMostOneMatch(ss: seq<VSector>, sec: VSector)
  {
    forall i :: 0 <= i < |sec.walls| ==> Matches(ss, sec.id, sec.walls[i]) <= 1
  }

  lemma {:induction false} FilterMatchedIsUnmatched(nw: seq<Wall>, ss: seq<VSector>, newId: int, drop: set<nat>)
    requires forall i :: 0 <= i < |nw| ==> (i in drop <==> Matches(ss, newId, nw[i]) > 0)
    decreases |nw|
    ensures FilterIdx(MarkNew(nw, ss, newId), drop) == Unmatched(nw, ss, newId)
  {
    if |nw| > 0 {
      var n := |nw| - 1;
      var m := MarkNew(nw, ss, newId);
      MarkNewPrefix(nw, ss, newId, n);
      FilterMatchedIsUnmatched(nw[..n], ss, newId, drop);
      assert FilterIdx(m, drop) == FilterIdx(m[..n], drop) + (if n in drop then [] else [m[n]]);
      assert Unmatched(nw, ss, newId) == Unmatched(nw[..n], ss, newId) + (if Matches(ss, newId, nw[n]) > 0 then [] else [nw[n]]);
    }
  }

  lemma MarkNewPrefix(nw: seq<Wall>, ss: seq<VSector>, newId: int, n: nat)
    requires n <= |nw|
    ensures MarkNew(nw, ss, newId)[..n] == MarkNew(nw[..n], ss, newId)
  {
    var a, b := MarkNew(nw, ss, newId)[..n], MarkNew(nw[..n], ss, newId);
    forall i | 0 <= i < n
      ensures a[i] == b[i]
    {
      assert nw[..n][i] == nw[i];
    }
  }

  /** With at most one match per new wall, linkPortals is well defined, and
      its result is the corrected one: the unmatched walls in order, the
      count dropping by exactly the number of matches. */
  lemma LinkPortalsAgreesWhenMatchesAreUnique(ss: seq<VSector>, sec: VSector)
    requires AtMostOneMatch(ss, sec)
    ensures LinkPortals(ss, sec) == Some(LinkPortalsFixed(ss, sec))
  {
    var nw := sec.walls;
    var pushes := Pushes(ss, nw, sec.id);
    var d := SortDescending(pushes);
    forall x: nat
      ensures multiset(d)[x] == if x < |nw| then Matches(ss, sec.id, nw[x]) else 0
    {
      PushesCount(ss, nw, sec.id, x);
    }
    assert forall x :: multiset(d)[x] <= 1 by {
      forall x
        ensures multiset(d)[x] <= 1
      {
        if x >= 0 {
          assert multiset(d)[x as nat] <= 1;
        }
      }
    }
    DescendingOnceIsStrict(d);
    var drop := set k | k in d;
    forall k | 0 <= k < |d|
      ensures d[k] < |nw|
    {
      assert d[k] in multiset(d);
    }
    EraseDescending(MarkNew(nw, ss, sec.id), d);
    forall i | 0 <= i < |nw|
      ensures i in drop <==> Matches(ss, sec.id, nw[i]) > 0
    {
      assert multiset(d)[i] == Matches(ss, sec.id, nw[i]);
    }
    FilterMatchedIsUnmatched(nw, ss, sec.id, drop);
  }

  // ---------------------------------------------------------------------
  // Finding: an index pushed twice is erased twice.

  /** An existing sector drawn through (0,0), (10,0) and back holds the
      segment (0,0)-(10,0) twice; the new triangle shares that segment. */
  function DoubledEdgeWorld(): seq<VSector>
  {
    [VSector(0, [Solid(Point(0, 0), Point(10, 0)), Solid(Point(10, 0), Point(0, 0)), Solid(Point(0, 0), Point(0, 0))], 0.0, 4.0)]
  }

  function Triangle(): VSector
  {
    VSector(1, [Solid(Point(0, 0), Point(10, 0)), Solid(Point(10, 0), Point(10, 10)), Solid(Point(10, 10), Point(0, 0))], 0.0, 4.0)
  }

  lemma DoubledEdgePushes(ss: seq<VSector>, sec: VSector)
    requires ss == DoubledEdgeWorld() && sec == Triangle()
    ensures Pushes(ss, sec.walls, sec.id) == [0, 0]
    ensures Matches(ss, sec.id, sec.walls[1]) == 0
    ensures Matches(ss, sec.id, sec.walls[2]) == 0
  {
    var ews := ss[0].walls;
    var nw := sec.walls;
    assert CountIn(nw[0], ews) == 2;
    assert CountIn(nw[1], ews) == 0;
    assert CountIn(nw[2], ews) == 0;
    assert SectorPushes(nw, ews, 3) == [];
    assert SectorPushes(nw, ews, 2) == [];
    assert SectorPushes(nw, ews, 1) == [];
    assert SectorPushes(nw, ews, 0) == [0, 0];
  }

  /** As written: when the removal list holds the first of three new walls
      twice and the second wall matches nothing, the second wall is erased
      together with the first; the corrected version keeps it. */
  lemma DoublePushDropsUnmatchedWall(ss: seq<VSector>, sec: VSector)
    requires |sec.walls| == 3 && Pushes(ss, sec.walls, sec.id) == [0, 0]
    requires Matches(ss, sec.id, sec.walls[1]) == 0 && Matches(ss, sec.id, sec.walls[2]) == 0
    ensures LinkPortals(ss, sec).Some?
    ensures LinkPortals(ss, sec).value.added.walls == [sec.walls[2]]
    ensures LinkPortalsFixed(ss, sec).added.walls == [sec.walls[1], sec.walls[2]]
  {
    var nw := sec.walls;
    PushedTwiceMatches(ss, nw, sec.id);
    SortTwoZeros();
    var marked := MarkNew(nw, ss, sec.id);
    assert marked == [marked[0], nw[1], nw[2]];
    EraseFirstTwice(marked[0], nw[1], nw[2]);
    UnmatchedLastTwo(nw, ss, sec.id);
  }

  lemma PushedTwiceMatches(ss: seq<VSector>, nw: seq<Wall>, newId: int)
    requires |nw| > 0 && Pushes(ss, nw, newId) == [0, 0]
    ensures Matches(ss, newId, nw[0]) == 2
  {
    PushesCount(ss, nw, newId, 0);
    var p: seq<nat> := [0, 0];
    assert multiset(p)[0] == 2;
  }

  lemma SortTwoZeros()
    ensures SortDescending([0, 0]) == [0, 0]
  {
    var d := SortDescending([0, 0]);
    assert multiset(d) == multiset{0, 0};
    assert d[0] in multiset(d) && d[1] in multiset(d);
  }

  /** Erasing index 0 twice from three walls leaves the third. */
  lemma EraseFirstTwice(a: Wall, b: Wall, c: Wall)
    ensures EraseAll([a, b, c], [0, 0]) == Some([c])
  {
    assert [a, b, c][..0] + [a, b, c][1..] == [b, c];
    assert [b, c][..0] + [b, c][1..] == [c];
    assert EraseAll([b, c], [0]) == EraseAll([c], []);
  }

  lemma UnmatchedLastTwo(nw: seq<Wall>, ss: seq<VSector>, newId: int)
    requires |nw| == 3 && Matches(ss, newId, nw[0]) > 0
    requires Matches(ss, newId, nw[1]) == 0 && Matches(ss, newId, nw[2]) == 0
    ensures Unmatched(nw, ss, newId) == [nw[1], nw[2]]
  {
    assert Unmatched(nw[..1], ss, newId) == [] by {
      assert nw[..1][..0] == [] && nw[..1][0] == nw[0];
    }
    assert Unmatched(nw[..2], ss, newId) == [nw[1]] by {
      assert nw[..2][..1] == nw[..1] && nw[..2][1] == nw[1];
    }
    assert nw[..2] == nw[..|nw| - 1];
  }

  /** The doubled-edge world meets the conditions above: the wall
      (10,0)-(10,10) matches nothing, yet linkPortals as written drops it. */
  lemma LinkPortalsDropsUnmatchedWall(ss: seq<VSector>, sec: VSector)
    requires ss == DoubledEdgeWorld() && sec == Triangle()
    ensures sec.walls[1] == Solid(Point(10, 0), Point(10, 10))
    ensures Matches(ss, sec.id, sec.walls[1]) == 0
    ensures LinkPortals(ss, sec).Some? && LinkPortals(ss, sec).value.added.walls == [sec.walls[2]]
    ensures LinkPortalsFixed(ss, sec).added.walls == [sec.walls[1], sec.walls[2]]
  {
    DoubledEdgePushes(ss, sec);
    DoublePushDropsUnmatchedWall(ss, sec);
  }
  // ---------------------------------------------------------------------
  // What the original linkPortals keeps whenever it is defined

  /** Erasing only removes: every wall left was in the list. */
  lemma {:induction false} EraseAllKeepsFrom(ws: seq<Wall>, idxs: seq<nat>)
    ensures EraseAll(ws, idxs).Some? ==>
      forall k :: 0 <= k < |EraseAll(ws, idxs).value| ==> EraseAll(ws, idxs).value[k] in ws
    decreases |idxs|
  {
    if |idxs| > 0 && idxs[0] < |ws| {
      var rest := ws[..idxs[0]] + ws[idxs[0] + 1..];
      EraseAllKeepsFrom(rest, idxs[1..]);
      forall i | 0 <= i < |rest|
        ensures rest[i] in ws
      {
        if i < idxs[0] {
          assert rest[i] == ws[i];
        } else {
          assert rest[i] == ws[i + 1];
        }
      }
    }
  }

  /** With no match the default is what is left. */
  lemma {:induction false} LastMatchIdDefault(ss: seq<VSector>, newId: int, x: Wall, d: int)
    requires Matches(ss, newId, x) == 0
    ensures LastMatchId(ss, newId, x, d) == d
    decreases |ss|
  {
    if |ss| > 0 {
      LastMatchIdDefault(ss[1..], newId, x, d);
    }
  }

  /** With a match, the id left is that of an existing sector other than
      the new one. */
  lemma {:induction false} LastMatchIdNamesSector(ss: seq<VSector>, newId: int, x: Wall, d: int)
    requires Matches(ss, newId, x) > 0
    ensures exists s :: 0 <= s < |ss| && ss[s].id != newId && ss[s].id == LastMatchId(ss, newId, x, d)
    decreases |ss|
  {
    var d' := if ss[0].id != newId && CountIn(x, ss[0].walls) > 0 then ss[0].id else d;
    if Matches(ss[1..], newId, x) > 0 {
      LastMatchIdNamesSector(ss[1..], newId, x, d');
      var s :| 0 <= s < |ss[1..]| && ss[1..][s].id != newId && ss[1..][s].id == LastMatchId(ss[1..], newId, x, d');
      assert ss[s + 1] == ss[1..][s];
    } else {
      LastMatchIdDefault(ss[1..], newId, x, d');
      assert LastMatchId(ss, newId, x, d) == ss[0].id;
    }
  }

  /** A wall the new sector may be left with: one of its own walls, or a
      portal on the segment of one of them into an existing sector other
      than the new one. */
  predicate FromLoop(ss: seq<VSector>, sec: VSector, w: Wall)
  {
    || w in sec.walls
    || (&& w.isPortal
        && (exists i :: 0 <= i < |sec.walls| && w.p1 == sec.walls[i].p1 && w.p2 == sec.walls[i].p2)
        && (exists s :: 0 <= s < |ss| && ss[s].id != sec.id && ss[s].id == w.adjoiningSector))
  }

  /** Whenever the original is defined, it marks the existing sectors as
      the corrected version does, and the new sector keeps its id and
      heights and is left only with walls of its loop, each unchanged or
      made a portal into another existing sector. */
  lemma LinkPortalsKeepsLoopWalls(ss: seq<VSector>, sec: VSector)
    ensures var r := LinkPortals(ss, sec);
            r.Some? ==>
              && r.value.sectors == LinkPortalsFixed(ss, sec).sectors
              && r.value.added.id == sec.id
              && r.value.added.floorHeight == sec.floorHeight
              && r.value.added.ceilingHeight == sec.ceilingHeight
              && forall k :: 0 <= k < |r.value.added.walls| ==> FromLoop(ss, sec, r.value.added.walls[k])
  {
    var removal := SortDescending(Pushes(ss, sec.walls, sec.id));
    var marked := MarkNew(sec.walls, ss, sec.id);
    EraseAllKeepsFrom(marked, removal);
    var r := LinkPortals(ss, sec);
    if r.Some? {
      assert r.value.added == sec.(walls := EraseAll(marked, removal).value);
      forall k | 0 <= k < |r.value.added.walls|
        ensures FromLoop(ss, sec, r.value.added.walls[k])
      {
        var w := r.value.added.walls[k];
        assert w in marked;
        var i :| 0 <= i < |marked| && marked[i] == w;
        if Matches(ss, sec.id, sec.walls[i]) > 0 {
          LastMatchIdNamesSector(ss, sec.id, sec.walls[i], sec.walls[i].adjoiningSector);
        }
      }
    }
  }
}
