// Randomised Prim's: the frontier of candidate walls, one pass that removes a
// random entry and carves through it if its far cell is still unvisited, the
// loop run to an empty frontier, and what each of these keeps.

module Prims {
  import opened Grid
  import opened Carving

  /** A frontier entry (x1, y1, x2, y2): a visited cell and a neighbour of it that
      was unvisited when the entry was added. */
  type Entry = (nat, nat, nat, nat)

  predicate EntriesWithin(walls: seq<Entry>, w: nat, h: nat) {
    forall i | 0 <= i < |walls| :: InGrid(w, h, (walls[i].0, walls[i].1)) && InGrid(w, h, (walls[i].2, walls[i].3))
  }

  /** The wall of (x1, y1) facing (x2, y2), decided by comparing coordinates: a
      vertical pair when the columns agree, the larger coordinate's cell losing
      the wall that faces the smaller. */
  function DirTo(e: Entry): (d: nat)
    ensures d < 4
  {
    if e.0 == e.2 then (if e.1 > e.3 then 0 else 2)
    else if e.0 > e.2 then 3 else 1
  }

  /** (x2, y2) is the in-bounds neighbour of (x1, y1) that `DirTo` points at. */
  predicate Adjacent(w: nat, h: nat, e: Entry) {
    InGrid(w, h, (e.0, e.1)) && HasNeighbor(w, h, e.0, e.1, DirTo(e))
    && Neighbor(e.0, e.1, DirTo(e)) == (e.2, e.3)
  }

  /** The coordinate comparison picks exactly the wall facing each neighbour. */
  lemma DirToNeighbor(w: nat, h: nat, x: nat, y: nat, d: nat)
    requires x < w && y < h && d < 4 && HasNeighbor(w, h, x, y, d)
    ensures var n := Neighbor(x, y, d);
      DirTo((x, y, n.0, n.1)) == d && Adjacent(w, h, (x, y, n.0, n.1))
  {
  }

  /** The initial frontier: one entry from the start cell to each of its in-bounds
      neighbours, left, right, top, bottom. */
  function InitialFrontier(w: nat, h: nat, sx: nat, sy: nat): (r: seq<Entry>)
    requires sx < w && sy < h
    ensures |r| <= 4 && EntriesWithin(r, w, h)
    ensures forall i | 0 <= i < |r| :: r[i].0 == sx && r[i].1 == sy && Adjacent(w, h, r[i])
    ensures forall d: nat | d < 4 && HasNeighbor(w, h, sx, sy, d) ::
      var n := Neighbor(sx, sy, d); (sx, sy, n.0, n.1) in r
    ensures forall i, j | 0 <= i < j < |r| :: r[i] != r[j]
  {
    (if sx > 0 then [(sx, sy, sx - 1, sy)] else [])
    + (if sx + 1 < w then [(sx, sy, sx + 1, sy)] else [])
    + (if sy > 0 then [(sx, sy, sx, sy - 1)] else [])
    + (if sy + 1 < h then [(sx, sy, sx, sy + 1)] else [])
  }

  /** Entries from a freshly visited (x2, y2) to each in-bounds neighbour still
      unvisited, left, right, top, bottom; `NewEntriesExact` characterises them. */
  function NewEntries(g: Board, w: nat, h: nat, x2: nat, y2: nat): (r: seq<Entry>)
    requires Shaped(g, w, h) && x2 < w && y2 < h
    ensures |r| <= 4
  {
    (if x2 > 0 && !g[y2][x2 - 1].visited then [(x2, y2, x2 - 1, y2)] else [])
    + (if x2 + 1 < w && !g[y2][x2 + 1].visited then [(x2, y2, x2 + 1, y2)] else [])
    + (if y2 > 0 && !g[y2 - 1][x2].visited then [(x2, y2, x2, y2 - 1)] else [])
    + (if y2 + 1 < h && !g[y2 + 1][x2].visited then [(x2, y2, x2, y2 + 1)] else [])
  }

  /** The new entries are exactly those from (x2, y2) to its unvisited in-bounds
      neighbours: each one is such an entry, each such neighbour has one, and
      no entry is pushed twice. */
  lemma NewEntriesExact(g: Board, w: nat, h: nat, x2: nat, y2: nat)
    requires Shaped(g, w, h) && x2 < w && y2 < h
    ensures var r := NewEntries(g, w, h, x2, y2);
      && (forall i | 0 <= i < |r| ::
            r[i].0 == x2 && r[i].1 == y2 && Adjacent(w, h, r[i]) && !g[r[i].3][r[i].2].visited)
      && (forall d: nat | d < 4 && HasNeighbor(w, h, x2, y2, d) ::
            var n := Neighbor(x2, y2, d); !g[n.1][n.0].visited ==> (x2, y2, n.0, n.1) in r)
      && (forall i, j | 0 <= i < j < |r| :: r[i] != r[j])
  {
  }

  /** Clear the wall pair between (x1, y1) and (x2, y2), chosen by comparing
      coordinates. */
  function ClearBetween(g: Board, x1: nat, y1: nat, x2: nat, y2: nat): (r: Board)
    requires y1 < |g| && x1 < |g[y1]| && y2 < |g| && x2 < |g[y2]|
    ensures |r| == |g| && forall y | 0 <= y < |g| :: |r[y]| == |g[y]|
  {
    if x1 == x2 then
      if y1 > y2 then ClearWall(ClearWall(g, x1, y1, 0), x2, y2, 2)
      else ClearWall(ClearWall(g, x1, y1, 2), x2, y2, 0)
    else if x1 > x2 then ClearWall(ClearWall(g, x1, y1, 3), x2, y2, 1)
    else ClearWall(ClearWall(g, x1, y1, 1), x2, y2, 3)
  }

  /** Marking the far cell and clearing by coordinate comparison is the same carve
      as the backtracker's, through the wall `DirTo` names. */
  lemma PrimsCarveIsLink(g: Board, w: nat, h: nat, e: Entry)
    requires Shaped(g, w, h) && Adjacent(w, h, e)
    ensures ClearBetween(MarkVisited(g, e.2, e.3), e.0, e.1, e.2, e.3) == Link(g, w, h, e.0, e.1, DirTo(e))
  {
    LinkAt(g, w, h, e.0, e.1, DirTo(e));
    var r := ClearBetween(MarkVisited(g, e.2, e.3), e.0, e.1, e.2, e.3);
    var l := Link(g, w, h, e.0, e.1, DirTo(e));
    assert |r| == |l|;
    forall j | 0 <= j < h ensures r[j] == l[j] {
      assert |r[j]| == |l[j]|;
    }
  }

  /** `walls.remove(index)`: drop one entry, keeping the order of the others. */
  function RemoveAt(walls: seq<Entry>, index: nat): (r: seq<Entry>)
    requires index < |walls|
    ensures |r| == |walls| - 1
  {
    walls[..index] + walls[index + 1..]
  }

  /** Removal drops exactly one copy of the chosen entry and keeps every other. */
  lemma RemoveAtDropsOne(walls: seq<Entry>, index: nat)
    requires index < |walls|
    ensures var r := RemoveAt(walls, index);
      && multiset(r) == multiset(walls) - multiset{walls[index]}
      && forall e | e in walls && e != walls[index] :: e in r
  {
    assert walls == walls[..index] + [walls[index]] + walls[index + 1..];
  }

  /** One pass of Prim's loop on a non-empty frontier: remove the entry at `index`;
      if its far cell is unvisited, mark it visited, clear the wall pair, and add
      entries to the far cell's unvisited neighbours. */
  function PrimsIteration(g: Board, w: nat, h: nat, walls: seq<Entry>, index: nat): (r: (Board, seq<Entry>))
    requires Shaped(g, w, h) && EntriesWithin(walls, w, h) && index < |walls|
    ensures Shaped(r.0, w, h) && EntriesWithin(r.1, w, h)
    ensures |r.1| < |walls| + 4
  {
    var (x1, y1, x2, y2) := walls[index];
    var rest := RemoveAt(walls, index);
    if g[y2][x2].visited then (g, rest)
    else
      var g' := ClearBetween(MarkVisited(g, x2, y2), x1, y1, x2, y2);
      (g', rest + NewEntries(g', w, h, x2, y2))
  }

  /** A pass removes exactly the chosen entry. A stale entry, whose far cell is
      already visited, leaves the grid alone; otherwise the far cell is carved to
      from its visited neighbour and only entries from it to unvisited cells are
      added. */
  lemma PrimsIterationCases(g: Board, w: nat, h: nat, walls: seq<Entry>, index: nat)
    requires Shaped(g, w, h) && EntriesWithin(walls, w, h) && index < |walls|
    requires Adjacent(w, h, walls[index])
    ensures var e, r := walls[index], PrimsIteration(g, w, h, walls, index);
      && multiset(r.1[..|walls| - 1]) == multiset(walls) - multiset{e}
      && if g[e.3][e.2].visited then
           r.0 == g && r.1 == RemoveAt(walls, index)
         else
           && r.0 == Link(g, w, h, e.0, e.1, DirTo(e))
           && r.0[e.3][e.2].visited
           && r.1 == RemoveAt(walls, index) + NewEntries(r.0, w, h, e.2, e.3)
           && forall i | |walls| - 1 <= i < |r.1| ::
                r.1[i].0 == e.2 && r.1[i].1 == e.3 && !r.0[r.1[i].3][r.1[i].2].visited
  {
    var e := walls[index];
    var r := PrimsIteration(g, w, h, walls, index);
    var rest := RemoveAt(walls, index);
    RemoveAtDropsOne(walls, index);
    assert r.1[..|walls| - 1] == rest;
    if !g[e.3][e.2].visited {
      PrimsCarveIsLink(g, w, h, e);
      LinkAt(g, w, h, e.0, e.1, DirTo(e));
      NewEntriesExact(r.0, w, h, e.2, e.3);
    }
  }

  // ---------------------------------------------------------------------
  // Prim's invariant

  /** Every visited cell with an unvisited in-bounds neighbour has an entry for it. */
  ghost predicate Covered(g: Board, w: nat, h: nat, walls: seq<Entry>)
    requires Shaped(g, w, h)
  {
    forall y: nat, x: nat, d: nat | y < h && x < w && d < 4 && g[y][x].visited && HasNeighbor(w, h, x, y, d) ::
      var n := Neighbor(x, y, d);
      !g[n.1][n.0].visited ==> (x, y, n.0, n.1) in walls
  }

  /** The maze so far is a tree rooted at `root`; every entry goes from a visited
      cell to an adjacent one; and the frontier covers every boundary between a
      visited and an unvisited cell (stale entries may remain). */
  ghost predicate PrimsInv(g: Board, w: nat, h: nat, walls: seq<Entry>, root: Coord) {
    && Shaped(g, w, h)
    && PerfectSoFar(g, w, h, root)
    && EntriesWithin(walls, w, h)
    && (forall i | 0 <= i < |walls| :: Adjacent(w, h, walls[i]) && g[walls[i].1][walls[i].0].visited)
    && Covered(g, w, h, walls)
  }

  lemma StaleKeepsInv(g: Board, w: nat, h: nat, walls: seq<Entry>, root: Coord, index: nat)
    requires PrimsInv(g, w, h, walls, root) && index < |walls|
    requires var e := walls[index]; g[e.3][e.2].visited
    ensures PrimsInv(g, w, h, RemoveAt(walls, index), root)
  {
    var e := walls[index];
    var rest := RemoveAt(walls, index);
    RemoveAtDropsOne(walls, index);
    forall i | 0 <= i < |rest| ensures Adjacent(w, h, rest[i]) && g[rest[i].1][rest[i].0].visited {
      assert rest[i] in multiset(walls);
      var j :| 0 <= j < |walls| && walls[j] == rest[i];
    }
    forall y: nat, x: nat, d: nat | y < h && x < w && d < 4 && g[y][x].visited && HasNeighbor(w, h, x, y, d)
      ensures var n := Neighbor(x, y, d); !g[n.1][n.0].visited ==> (x, y, n.0, n.1) in rest
    {
      var n := Neighbor(x, y, d);
      if !g[n.1][n.0].visited {
        assert (x, y, n.0, n.1) in walls;
        assert (x, y, n.0, n.1) != e;
      }
    }
  }

  /** After carving to (e.2, e.3), which is then the only newly visited cell, the
      remaining entries plus those from the new cell still cover every boundary. */
  lemma FreshCovered(g: Board, g': Board, w: nat, h: nat, walls: seq<Entry>, rest: seq<Entry>, added: seq<Entry>, e: Entry)
    requires Shaped(g, w, h) && Shaped(g', w, h) && Covered(g, w, h, walls)
    requires e.2 < w && e.3 < h
    requires forall y: nat, x: nat | y < h && x < w :: g'[y][x].visited <==> (g[y][x].visited || (x, y) == (e.2, e.3))
    requires forall t | t in walls && t != e :: t in rest
    requires forall d: nat | d < 4 && HasNeighbor(w, h, e.2, e.3, d) ::
      var n := Neighbor(e.2, e.3, d); !g'[n.1][n.0].visited ==> (e.2, e.3, n.0, n.1) in added
    ensures Covered(g', w, h, rest + added)
  {
    forall y: nat, x: nat, k: nat | y < h && x < w && k < 4 && g'[y][x].visited && HasNeighbor(w, h, x, y, k)
      ensures var n := Neighbor(x, y, k); !g'[n.1][n.0].visited ==> (x, y, n.0, n.1) in rest + added
    {
      var n := Neighbor(x, y, k);
      if !g'[n.1][n.0].visited {
        if (x, y) == (e.2, e.3) {
          assert (x, y, n.0, n.1) in added;
        } else {
          assert g[y][x].visited;
          assert (x, y, n.0, n.1) in walls;
          assert (x, y, n.0, n.1) in rest;
        }
      }
    }
  }

  /** Every entry of the new frontier leaves a visited cell for an adjacent one. */
  lemma FreshEntries(g: Board, g': Board, w: nat, h: nat, walls: seq<Entry>, rest: seq<Entry>, added: seq<Entry>)
    requires Shaped(g, w, h) && Shaped(g', w, h) && EntriesWithin(walls, w, h)
    requires forall i | 0 <= i < |walls| :: Adjacent(w, h, walls[i]) && g[walls[i].1][walls[i].0].visited
    requires VisitedKept(g, g', w, h)
    requires multiset(rest) <= multiset(walls)
    requires forall i | 0 <= i < |added| :: Adjacent(w, h, added[i]) && g'[added[i].1][added[i].0].visited
    ensures EntriesWithin(rest + added, w, h)
    ensures forall i | 0 <= i < |rest + added| ::
      Adjacent(w, h, (rest + added)[i]) && g'[(rest + added)[i].1][(rest + added)[i].0].visited
  {
    var s' := rest + added;
    forall i | 0 <= i < |s'| ensures Adjacent(w, h, s'[i]) && g'[s'[i].1][s'[i].0].visited {
      if i < |rest| {
        assert s'[i] == rest[i];
        assert rest[i] in multiset(walls);
        var j :| 0 <= j < |walls| && walls[j] == rest[i];
      } else {
        assert s'[i] == added[i - |rest|];
      }
    }
  }

  /** Prim's invariant after a fresh carve, stated over any grid `g'` that keeps the
      tree, keeps every visit and adds exactly the visit of (e.2, e.3). */
  lemma FreshInv(g: Board, g': Board, w: nat, h: nat, walls: seq<Entry>, rest: seq<Entry>, added: seq<Entry>, root: Coord, e: Entry)
    requires PrimsInv(g, w, h, walls, root) && e.2 < w && e.3 < h
    requires Shaped(g', w, h) && PerfectSoFar(g', w, h, root) && VisitedKept(g, g', w, h)
    requires forall y: nat, x: nat | y < h && x < w :: g'[y][x].visited <==> (g[y][x].visited || (x, y) == (e.2, e.3))
    requires multiset(rest) <= multiset(walls)
    requires forall t | t in walls && t != e :: t in rest
    requires forall i | 0 <= i < |added| :: added[i].0 == e.2 && added[i].1 == e.3 && Adjacent(w, h, added[i])
    requires forall d: nat | d < 4 && HasNeighbor(w, h, e.2, e.3, d) ::
      var n := Neighbor(e.2, e.3, d); !g'[n.1][n.0].visited ==> (e.2, e.3, n.0, n.1) in added
    ensures PrimsInv(g', w, h, rest + added, root)
  {
    FreshEntries(g, g', w, h, walls, rest, added);
    FreshCovered(g, g', w, h, walls, rest, added, e);
  }

  lemma FreshKeepsInv(g: Board, w: nat, h: nat, walls: seq<Entry>, root: Coord, index: nat)
    requires PrimsInv(g, w, h, walls, root) && index < |walls|
    requires var e := walls[index]; !g[e.3][e.2].visited
    ensures var e := walls[index];
      var g' := Link(g, w, h, e.0, e.1, DirTo(e));
      PrimsInv(g', w, h, RemoveAt(walls, index) + NewEntries(g', w, h, e.2, e.3), root)
  {
    var e := walls[index];
    var d := DirTo(e);
    var g': Board := Link(g, w, h, e.0, e.1, d);
    var rest := RemoveAt(walls, index);
    var added := NewEntries(g', w, h, e.2, e.3);
    RemoveAtDropsOne(walls, index);
    NewEntriesExact(g', w, h, e.2, e.3);
    LinkKeepsPerfectSoFar(g, w, h, root, e.0, e.1, d);
    LinkVisits(g, w, h, e.0, e.1, d);
    FreshInv(g, g', w, h, walls, rest, added, root, e);
  }

  /** One pass keeps the invariant, whichever entry is removed. */
  lemma PrimsIterationKeepsInv(g: Board, w: nat, h: nat, walls: seq<Entry>, root: Coord, index: nat)
    requires PrimsInv(g, w, h, walls, root) && index < |walls|
    ensures var r := PrimsIteration(g, w, h, walls, index);
      && PrimsInv(r.0, w, h, r.1, root)
      && WallsOnlyCleared(g, r.0, w, h)
      && VisitedKept(g, r.0, w, h)
  {
    var e := walls[index];
    PrimsIterationCases(g, w, h, walls, index);
    if g[e.3][e.2].visited {
      StaleKeepsInv(g, w, h, walls, root, index);
    } else {
      FreshKeepsInv(g, w, h, walls, root, index);
      LinkKeepsPerfectSoFar(g, w, h, root, e.0, e.1, DirTo(e));
    }
  }

  /** Each pass makes progress: one more cell is visited, or the frontier shrinks
      with the visited cells unchanged. */
  lemma PrimsIterationProgress(g: Board, w: nat, h: nat, walls: seq<Entry>, index: nat)
    requires Shaped(g, w, h) && EntriesWithin(walls, w, h) && index < |walls|
    ensures var r := PrimsIteration(g, w, h, walls, index);
      || UnvisitedCount(r.0) < UnvisitedCount(g)
      || (UnvisitedCount(r.0) == UnvisitedCount(g) && |r.1| < |walls|)
  {
    var (x1, y1, x2, y2) := walls[index];
    if !g[y2][x2].visited {
      var g1 := MarkVisited(g, x2, y2);
      SetNodeSum(g, x2, y2, g1[y2][x2], UnvisitedScore);
      ClearBetweenKeepsVisited(g1, x1, y1, x2, y2);
      GridSumPointwise(g1, ClearBetween(g1, x1, y1, x2, y2), UnvisitedScore);
    }
  }

  lemma ClearBetweenKeepsVisited(g: Board, x1: nat, y1: nat, x2: nat, y2: nat)
    requires y1 < |g| && x1 < |g[y1]| && y2 < |g| && x2 < |g[y2]|
    ensures var r := ClearBetween(g, x1, y1, x2, y2);
      && |r| == |g| && (forall y | 0 <= y < |g| :: |r[y]| == |g[y]|)
      && forall y, x | 0 <= y < |g| && 0 <= x < |g[y]| :: r[y][x].visited == g[y][x].visited
  {
  }

  /** With the frontier empty, the invariant says the maze is finished. */
  lemma EmptyFrontierIsPerfect(g: Board, w: nat, h: nat, root: Coord)
    requires PrimsInv(g, w, h, [], root)
    ensures PerfectMaze(g, w, h, root)
  {
    forall y: nat, x: nat | y < h && x < w && g[y][x].visited ensures Closed(g, w, h, x, y) {
      forall d: nat | d < 4 && HasNeighbor(w, h, x, y, d)
        ensures var n := Neighbor(x, y, d); g[n.1][n.0].visited
      {
      }
    }
    ClosedMeansAllVisited(g, w, h, root.0, root.1);
  }

  // ---------------------------------------------------------------------
  // The loop run to completion

  /** `while !walls.is_empty() { ... }`, pass k removing entry `rolls(k) % |walls|`. */
  function PrimsRun(g: Board, w: nat, h: nat, walls: seq<Entry>, rolls: nat -> nat, k: nat): (r: Board)
    requires Shaped(g, w, h) && EntriesWithin(walls, w, h)
    ensures Shaped(r, w, h)
    decreases UnvisitedCount(g), |walls|
  {
    if walls == [] then g
    else
      var (g', s') := PrimsIteration(g, w, h, walls, rolls(k) % |walls|);
      PrimsIterationProgress(g, w, h, walls, rolls(k) % |walls|);
      PrimsRun(g', w, h, s', rolls, k + 1)
  }

  /** Run from a state satisfying the invariant, Prim's loop ends with a perfect
      maze. */
  lemma {:induction false} PrimsRunPerfect(g: Board, w: nat, h: nat, walls: seq<Entry>, rolls: nat -> nat, k: nat, root: Coord)
    requires PrimsInv(g, w, h, walls, root)
    ensures PerfectMaze(PrimsRun(g, w, h, walls, rolls, k), w, h, root)
    decreases UnvisitedCount(g), |walls|
  {
    if walls == [] {
      EmptyFrontierIsPerfect(g, w, h, root);
    } else {
      var i := rolls(k) % |walls|;
      var r := PrimsIteration(g, w, h, walls, i);
      PrimsIterationProgress(g, w, h, walls, i);
      PrimsIterationKeepsInv(g, w, h, walls, root, i);
      PrimsRunPerfect(r.0, w, h, r.1, rolls, k + 1, root);
    }
  }

  /** The start cell of a fresh grid, visited, with any ordering of the initial
      frontier, satisfies Prim's invariant. */
  lemma StartSatisfiesPrimsInv(w: nat, h: nat, sx: nat, sy: nat, walls: seq<Entry>)
    requires sx < w && sy < h
    requires multiset(walls) == multiset(InitialFrontier(w, h, sx, sy))
    ensures PrimsInv(MarkVisited(NewGrid(w, h), sx, sy), w, h, walls, (sx, sy))
  {
    var g: Board := MarkVisited(NewGrid(w, h), sx, sy);
    StartIsPerfectSoFar(w, h, sx, sy);
    StartCells(w, h, sx, sy);
    StartFrontierEntries(w, h, sx, sy, walls);
    StartFrontierCovers(g, w, h, sx, sy, walls);
  }

  lemma StartFrontierEntries(w: nat, h: nat, sx: nat, sy: nat, walls: seq<Entry>)
    requires sx < w && sy < h
    requires multiset(walls) == multiset(InitialFrontier(w, h, sx, sy))
    ensures forall i | 0 <= i < |walls| :: walls[i].0 == sx && walls[i].1 == sy && Adjacent(w, h, walls[i])
    ensures EntriesWithin(walls, w, h)
  {
    var f := InitialFrontier(w, h, sx, sy);
    forall i | 0 <= i < |walls| ensures walls[i].0 == sx && walls[i].1 == sy && Adjacent(w, h, walls[i]) {
      assert walls[i] in multiset(walls);
      assert walls[i] in f;
    }
  }

  lemma StartFrontierCovers(g: Board, w: nat, h: nat, sx: nat, sy: nat, walls: seq<Entry>)
    requires sx < w && sy < h && Shaped(g, w, h)
    requires forall j: nat, i: nat | j < h && i < w :: g[j][i].visited <==> (i, j) == (sx, sy)
    requires multiset(walls) == multiset(InitialFrontier(w, h, sx, sy))
    ensures Covered(g, w, h, walls)
  {
    var f := InitialFrontier(w, h, sx, sy);
    forall y: nat, x: nat, d: nat | y < h && x < w && d < 4 && g[y][x].visited && HasNeighbor(w, h, x, y, d)
      ensures var n := Neighbor(x, y, d); !g[n.1][n.0].visited ==> (x, y, n.0, n.1) in walls
    {
      var n := Neighbor(x, y, d);
      assert (x, y) == (sx, sy);
      assert (x, y, n.0, n.1) in f;
      assert (x, y, n.0, n.1) in multiset(f);
    }
  }

  /** From the start cell of a fresh grid and any ordering of the initial frontier,
      Prim's loop builds a perfect maze rooted at the start, for every sequence of
      draws. */
  lemma PrimsFromStartIsPerfect(w: nat, h: nat, sx: nat, sy: nat, walls: seq<Entry>, rolls: nat -> nat)
    requires sx < w && sy < h
    requires multiset(walls) == multiset(InitialFrontier(w, h, sx, sy))
    ensures (StartFrontierEntries(w, h, sx, sy, walls);
      var g := MarkVisited(NewGrid(w, h), sx, sy);
      PerfectMaze(PrimsRun(g, w, h, walls, rolls, 0), w, h, (sx, sy)))
  {
    StartSatisfiesPrimsInv(w, h, sx, sy, walls);
    PrimsRunPerfect(MarkVisited(NewGrid(w, h), sx, sy), w, h, walls, rolls, 0, (sx, sy));
  }
}
