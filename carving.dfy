// What a maze under construction looks like: wall pairs agree, only visited
// cells have passages, passages + 1 == visited cells, and every visited cell is
// reachable from the start. Carving one passage to an unvisited neighbour keeps
// all of this, which is the spanning-tree argument shared by both generators.

module Carving {
  import opened Grid

  // ---------------------------------------------------------------------
  // Wall pairs

  /** Wall d of (x, y) equals its neighbour's opposite wall; a border wall is present. */
  ghost predicate WallAgrees(g: Board, w: nat, h: nat, x: nat, y: nat, d: nat)
    requires Shaped(g, w, h) && x < w && y < h && d < 4
  {
    if HasNeighbor(w, h, x, y, d) then
      var n := Neighbor(x, y, d);
      g[y][x].walls[d] == g[n.1][n.0].walls[Opposite(d)]
    else
      g[y][x].walls[d]
  }

  ghost predicate Agreeing(g: Board, w: nat, h: nat)
    requires Shaped(g, w, h)
  {
    forall y: nat, x: nat, d: nat | y < h && x < w && d < 4 :: WallAgrees(g, w, h, x, y, d)
  }

  /** Only cells already incorporated into the maze have a cleared wall. */
  ghost predicate OpenOnlyVisited(g: Board, w: nat, h: nat)
    requires Shaped(g, w, h)
  {
    forall y: nat, x: nat, d: nat | y < h && x < w && d < 4 && !g[y][x].walls[d] :: g[y][x].visited
  }

  ghost predicate WallsOnlyCleared(g: Board, g': Board, w: nat, h: nat)
    requires Shaped(g, w, h) && Shaped(g', w, h)
  {
    forall y: nat, x: nat, d: nat | y < h && x < w && d < 4 && !g[y][x].walls[d] :: !g'[y][x].walls[d]
  }

  ghost predicate VisitedKept(g: Board, g': Board, w: nat, h: nat)
    requires Shaped(g, w, h) && Shaped(g', w, h)
  {
    forall y: nat, x: nat | y < h && x < w && g[y][x].visited :: g'[y][x].visited
  }

  // ---------------------------------------------------------------------
  // Passages and paths

  /** There is a passage from a to b through wall d of a. */
  predicate LinkedVia(g: Board, w: nat, h: nat, a: Coord, b: Coord, d: nat)
    requires Shaped(g, w, h)
  {
    d < 4 && InGrid(w, h, a) && HasNeighbor(w, h, a.0, a.1, d)
    && Neighbor(a.0, a.1, d) == b && !g[a.1][a.0].walls[d]
  }

  predicate Linked(g: Board, w: nat, h: nat, a: Coord, b: Coord)
    requires Shaped(g, w, h)
  {
    LinkedVia(g, w, h, a, b, 0) || LinkedVia(g, w, h, a, b, 1)
    || LinkedVia(g, w, h, a, b, 2) || LinkedVia(g, w, h, a, b, 3)
  }

  ghost predicate IsPath(g: Board, w: nat, h: nat, p: seq<Coord>)
    requires Shaped(g, w, h)
  {
    && |p| >= 1
    && (forall i | 0 <= i < |p| :: InGrid(w, h, p[i]))
    && (forall i | 0 <= i < |p| - 1 :: Linked(g, w, h, p[i], p[i + 1]))
  }

  ghost predicate Reachable(g: Board, w: nat, h: nat, a: Coord, b: Coord)
    requires Shaped(g, w, h)
  {
    exists p :: IsPath(g, w, h, p) && p[0] == a && p[|p| - 1] == b
  }

  ghost predicate SpannedFrom(g: Board, w: nat, h: nat, root: Coord)
    requires Shaped(g, w, h)
  {
    forall y: nat, x: nat {:trigger Reachable(g, w, h, root, (x, y))} | y < h && x < w && g[y][x].visited :: Reachable(g, w, h, root, (x, y))
  }

  // ---------------------------------------------------------------------
  // The maze invariant

  /** The visited cells and the cleared wall pairs form a tree containing `root`:
      connected (every visited cell is reachable from root) with one passage fewer
      than cells. */
  ghost predicate PerfectSoFar(g: Board, w: nat, h: nat, root: Coord) {
    && Shaped(g, w, h)
    && InGrid(w, h, root) && g[root.1][root.0].visited
    && Agreeing(g, w, h)
    && OpenOnlyVisited(g, w, h)
    && Passages(g) + 1 == VisitedCount(g)
    && SpannedFrom(g, w, h, root)
  }

  ghost predicate AllVisited(g: Board, w: nat, h: nat)
    requires Shaped(g, w, h)
  {
    forall y: nat, x: nat | y < h && x < w :: g[y][x].visited
  }

  /** A finished maze: a spanning tree over every cell. */
  ghost predicate PerfectMaze(g: Board, w: nat, h: nat, root: Coord) {
    PerfectSoFar(g, w, h, root) && AllVisited(g, w, h)
  }

  // ---------------------------------------------------------------------
  // Carving one passage

  /** Clear the wall pair between (x, y) and its neighbour behind wall d, and mark
      that neighbour visited. */
  function Link(g: Board, w: nat, h: nat, x: nat, y: nat, d: nat): (r: Board)
    requires Shaped(g, w, h) && x < w && y < h && d < 4 && HasNeighbor(w, h, x, y, d)
    ensures Shaped(r, w, h)
  {
    var n := Neighbor(x, y, d);
    MarkVisited(ClearWall(ClearWall(g, x, y, d), n.0, n.1, Opposite(d)), n.0, n.1)
  }

  lemma LinkAt(g: Board, w: nat, h: nat, x: nat, y: nat, d: nat)
    requires Shaped(g, w, h) && x < w && y < h && d < 4 && HasNeighbor(w, h, x, y, d)
    ensures var r, n := Link(g, w, h, x, y, d), Neighbor(x, y, d);
      && n != (x, y) && InGrid(w, h, n)
      && r[y][x] == g[y][x].(walls := g[y][x].walls[d := false])
      && r[n.1][n.0] == g[n.1][n.0].(walls := g[n.1][n.0].walls[Opposite(d) := false], visited := true)
      && forall j: nat, i: nat | j < h && i < w && (i, j) != (x, y) && (i, j) != n :: r[j][i] == g[j][i]
  {
  }

  /** Carving visits exactly one more cell, the neighbour behind wall d. */
  lemma LinkVisits(g: Board, w: nat, h: nat, x: nat, y: nat, d: nat)
    requires Shaped(g, w, h) && x < w && y < h && d < 4 && HasNeighbor(w, h, x, y, d)
    ensures var r, n := Link(g, w, h, x, y, d), Neighbor(x, y, d);
      forall j: nat, i: nat | j < h && i < w :: r[j][i].visited <==> (g[j][i].visited || (i, j) == n)
  {
    LinkAt(g, w, h, x, y, d);
  }

  /** Carving keeps the scores: one more visited cell, one fewer unvisited. */
  lemma LinkCounts(g: Board, w: nat, h: nat, x: nat, y: nat, d: nat)
    requires Shaped(g, w, h) && x < w && y < h && d < 4 && HasNeighbor(w, h, x, y, d)
    requires var n := Neighbor(x, y, d); !g[n.1][n.0].visited
    ensures var r := Link(g, w, h, x, y, d);
      VisitedCount(r) == VisitedCount(g) + 1 && UnvisitedCount(r) + 1 == UnvisitedCount(g)
  {
    var n := Neighbor(x, y, d);
    var g1 := ClearWall(g, x, y, d);
    var g2 := ClearWall(g1, n.0, n.1, Opposite(d));
    SetNodeSum(g, x, y, g1[y][x], VisitedScore);
    SetNodeSum(g, x, y, g1[y][x], UnvisitedScore);
    SetNodeSum(g1, n.0, n.1, g2[n.1][n.0], VisitedScore);
    SetNodeSum(g1, n.0, n.1, g2[n.1][n.0], UnvisitedScore);
    SetNodeSum(g2, n.0, n.1, g2[n.1][n.0].(visited := true), VisitedScore);
    SetNodeSum(g2, n.0, n.1, g2[n.1][n.0].(visited := true), UnvisitedScore);
  }

  lemma {:induction false} PathKept(g: Board, g': Board, w: nat, h: nat, p: seq<Coord>)
    requires Shaped(g, w, h) && Shaped(g', w, h)
    requires WallsOnlyCleared(g, g', w, h) && IsPath(g, w, h, p)
    ensures IsPath(g', w, h, p)
  {
    forall i | 0 <= i < |p| - 1 ensures Linked(g', w, h, p[i], p[i + 1]) {
      assert Linked(g, w, h, p[i], p[i + 1]);
    }
  }

  lemma {:induction false} ReachableKept(g: Board, g': Board, w: nat, h: nat, a: Coord, b: Coord)
    requires Shaped(g, w, h) && Shaped(g', w, h)
    requires WallsOnlyCleared(g, g', w, h) && Reachable(g, w, h, a, b)
    ensures Reachable(g', w, h, a, b)
  {
    var p :| IsPath(g, w, h, p) && p[0] == a && p[|p| - 1] == b;
    PathKept(g, g', w, h, p);
  }

  /** Facts about a carve that every part of the invariant uses: the pair being
      cleared was intact, because the neighbour is unvisited. */
  lemma LinkFromIntact(g: Board, w: nat, h: nat, x: nat, y: nat, d: nat)
    requires Shaped(g, w, h) && Agreeing(g, w, h) && OpenOnlyVisited(g, w, h)
    requires x < w && y < h && d < 4 && HasNeighbor(w, h, x, y, d)
    requires var n := Neighbor(x, y, d); !g[n.1][n.0].visited
    ensures var n := Neighbor(x, y, d);
      g[y][x].walls[d] && g[n.1][n.0].walls[Opposite(d)]
  {
    var n := Neighbor(x, y, d);
    NeighborBack(w, h, x, y, d);
    assert g[n.1][n.0].walls[Opposite(d)];
    assert WallAgrees(g, w, h, x, y, d);
  }

  lemma LinkKeepsAgreeing(g: Board, w: nat, h: nat, x: nat, y: nat, d: nat)
    requires Shaped(g, w, h) && Agreeing(g, w, h)
    requires x < w && y < h && d < 4 && HasNeighbor(w, h, x, y, d)
    ensures Agreeing(Link(g, w, h, x, y, d), w, h)
  {
    var r: Board := Link(g, w, h, x, y, d);
    forall j: nat, i: nat, k: nat | j < h && i < w && k < 4 ensures WallAgrees(r, w, h, i, j, k) {
      LinkAgreesAt(g, w, h, x, y, d, i, j, k);
    }
  }

  /** Carving keeps the wall pair through wall k of (i, j) in agreement. */
  lemma LinkAgreesAt(g: Board, w: nat, h: nat, x: nat, y: nat, d: nat, i: nat, j: nat, k: nat)
    requires Shaped(g, w, h) && x < w && y < h && d < 4 && HasNeighbor(w, h, x, y, d)
    requires i < w && j < h && k < 4 && WallAgrees(g, w, h, i, j, k)
    ensures WallAgrees(Link(g, w, h, x, y, d), w, h, i, j, k)
  {
    NeighborBack(w, h, x, y, d);
    LinkCellAt(g, w, h, x, y, d, i, j);
    if HasNeighbor(w, h, i, j, k) {
      var m := Neighbor(i, j, k);
      NeighborBack(w, h, i, j, k);
      LinkCellAt(g, w, h, x, y, d, m.0, m.1);
    }
  }

  /** One cell after carving: wall d of the carving cell and the opposite wall of
      its neighbour are cleared and the neighbour is visited; nothing else
      changes. */
  lemma LinkCellAt(g: Board, w: nat, h: nat, x: nat, y: nat, d: nat, i: nat, j: nat)
    requires Shaped(g, w, h) && x < w && y < h && d < 4 && HasNeighbor(w, h, x, y, d)
    requires i < w && j < h
    ensures var r, n := Link(g, w, h, x, y, d), Neighbor(x, y, d);
      r[j][i] ==
        if (i, j) == (x, y) then g[j][i].(walls := g[j][i].walls[d := false])
        else if (i, j) == n then g[j][i].(walls := g[j][i].walls[Opposite(d) := false], visited := true)
        else g[j][i]
  {
    LinkAt(g, w, h, x, y, d);
  }

  lemma LinkKeepsOpenOnlyVisited(g: Board, w: nat, h: nat, x: nat, y: nat, d: nat)
    requires Shaped(g, w, h) && OpenOnlyVisited(g, w, h)
    requires x < w && y < h && d < 4 && HasNeighbor(w, h, x, y, d) && g[y][x].visited
    ensures var r := Link(g, w, h, x, y, d);
      && OpenOnlyVisited(r, w, h)
      && WallsOnlyCleared(g, r, w, h)
      && VisitedKept(g, r, w, h)
  {
    LinkAt(g, w, h, x, y, d);
  }

  lemma LinkPassages(g: Board, w: nat, h: nat, x: nat, y: nat, d: nat)
    requires Shaped(g, w, h) && x < w && y < h && d < 4 && HasNeighbor(w, h, x, y, d)
    requires var n := Neighbor(x, y, d); g[y][x].walls[d] && g[n.1][n.0].walls[Opposite(d)]
    ensures Passages(Link(g, w, h, x, y, d)) == Passages(g) + 1
  {
    var n := Neighbor(x, y, d);
    var e := Opposite(d);
    LinkAt(g, w, h, x, y, d);
    var g1 := ClearWall(g, x, y, d);
    var g2 := ClearWall(g1, n.0, n.1, e);
    SetNodeSum(g, x, y, g1[y][x], PassageScore);
    SetNodeSum(g1, n.0, n.1, g2[n.1][n.0], PassageScore);
    SetNodeSum(g2, n.0, n.1, g2[n.1][n.0].(visited := true), PassageScore);
  }

  lemma {:induction false} PathExtend(g: Board, w: nat, h: nat, p: seq<Coord>, b: Coord, d: nat)
    requires Shaped(g, w, h) && IsPath(g, w, h, p) && LinkedVia(g, w, h, p[|p| - 1], b, d)
    ensures IsPath(g, w, h, p + [b])
  {
    var q := p + [b];
    assert Linked(g, w, h, q[|q| - 2], q[|q| - 1]);
    forall i | 0 <= i < |q| - 1 ensures Linked(g, w, h, q[i], q[i + 1]) {
      if i < |p| - 1 {
        assert q[i] == p[i] && q[i + 1] == p[i + 1];
      }
    }
  }

  lemma LinkReachesNewCell(g: Board, r: Board, w: nat, h: nat, root: Coord, x: nat, y: nat, d: nat)
    requires Shaped(g, w, h) && Shaped(r, w, h) && Reachable(g, w, h, root, (x, y))
    requires WallsOnlyCleared(g, r, w, h)
    requires x < w && y < h && d < 4 && HasNeighbor(w, h, x, y, d) && !r[y][x].walls[d]
    ensures Reachable(r, w, h, root, Neighbor(x, y, d))
  {
    var p :| IsPath(g, w, h, p) && p[0] == root && p[|p| - 1] == (x, y);
    PathKept(g, r, w, h, p);
    assert LinkedVia(r, w, h, (x, y), Neighbor(x, y, d), d);
    PathExtend(r, w, h, p, Neighbor(x, y, d), d);
    assert (p + [Neighbor(x, y, d)])[0] == root;
  }

  lemma LinkKeepsSpanned(g: Board, w: nat, h: nat, root: Coord, x: nat, y: nat, d: nat)
    requires Shaped(g, w, h) && SpannedFrom(g, w, h, root)
    requires x < w && y < h && d < 4 && HasNeighbor(w, h, x, y, d) && g[y][x].visited
    requires WallsOnlyCleared(g, Link(g, w, h, x, y, d), w, h)
    ensures SpannedFrom(Link(g, w, h, x, y, d), w, h, root)
  {
    var n := Neighbor(x, y, d);
    var r: Board := Link(g, w, h, x, y, d);
    LinkAt(g, w, h, x, y, d);
    assert Reachable(g, w, h, root, (x, y));
    LinkReachesNewCell(g, r, w, h, root, x, y, d);
    forall j: nat, i: nat | j < h && i < w && r[j][i].visited ensures Reachable(r, w, h, root, (i, j)) {
      if (i, j) != n {
        assert g[j][i].visited;
        ReachableKept(g, r, w, h, root, (i, j));
      }
    }
  }

  /** Carving a passage from a visited cell to an unvisited neighbour keeps the
      maze a tree: the pair stays in agreement, the new passage joins two visited
      cells, one passage and one visited cell are added, and the new cell is
      reachable through the passage. Walls are only cleared, visits only added. */
  lemma LinkKeepsPerfectSoFar(g: Board, w: nat, h: nat, root: Coord, x: nat, y: nat, d: nat)
    requires PerfectSoFar(g, w, h, root)
    requires x < w && y < h && d < 4 && HasNeighbor(w, h, x, y, d) && g[y][x].visited
    requires var n := Neighbor(x, y, d); !g[n.1][n.0].visited
    ensures var r := Link(g, w, h, x, y, d);
      && PerfectSoFar(r, w, h, root)
      && WallsOnlyCleared(g, r, w, h)
      && VisitedKept(g, r, w, h)
  {
    var r: Board := Link(g, w, h, x, y, d);
    LinkFromIntact(g, w, h, x, y, d);
    LinkKeepsAgreeing(g, w, h, x, y, d);
    LinkKeepsOpenOnlyVisited(g, w, h, x, y, d);
    LinkPassages(g, w, h, x, y, d);
    LinkCounts(g, w, h, x, y, d);
    LinkKeepsSpanned(g, w, h, root, x, y, d);
    LinkAt(g, w, h, x, y, d);
  }

  // ---------------------------------------------------------------------
  // Completion

  /** No in-bounds neighbour of (x, y) is left unvisited. */
  ghost predicate Closed(g: Board, w: nat, h: nat, x: nat, y: nat)
    requires Shaped(g, w, h) && x < w && y < h
  {
    forall d: nat | d < 4 && HasNeighbor(w, h, x, y, d) ::
      var n := Neighbor(x, y, d); g[n.1][n.0].visited
  }

  ghost predicate VisitedClosed(g: Board, w: nat, h: nat)
    requires Shaped(g, w, h)
  {
    forall y: nat, x: nat | y < h && x < w && g[y][x].visited :: Closed(g, w, h, x, y)
  }

  lemma {:induction false} RowWalk(g: Board, w: nat, h: nat, x0: nat, y: nat, x: nat)
    requires Shaped(g, w, h) && VisitedClosed(g, w, h)
    requires x0 < w && y < h && g[y][x0].visited && x < w
    ensures g[y][x].visited
    decreases if x < x0 then x0 - x else x - x0
  {
    if x < x0 {
      RowWalk(g, w, h, x0, y, x + 1);
      assert Closed(g, w, h, x + 1, y) && HasNeighbor(w, h, x + 1, y, 3);
    } else if x > x0 {
      RowWalk(g, w, h, x0, y, x - 1);
      assert Closed(g, w, h, x - 1, y) && HasNeighbor(w, h, x - 1, y, 1);
    }
  }

  lemma {:induction false} ColumnWalk(g: Board, w: nat, h: nat, x: nat, y0: nat, y: nat)
    requires Shaped(g, w, h) && VisitedClosed(g, w, h)
    requires x < w && y0 < h && g[y0][x].visited && y < h
    ensures g[y][x].visited
    decreases if y < y0 then y0 - y else y - y0
  {
    if y < y0 {
      ColumnWalk(g, w, h, x, y0, y + 1);
      assert Closed(g, w, h, x, y + 1) && HasNeighbor(w, h, x, y + 1, 0);
    } else if y > y0 {
      ColumnWalk(g, w, h, x, y0, y - 1);
      assert Closed(g, w, h, x, y - 1) && HasNeighbor(w, h, x, y - 1, 2);
    }
  }

  /** If some cell is visited and no visited cell has an unvisited neighbour, every
      cell is visited: the grid is connected. */
  lemma {:induction false} ClosedMeansAllVisited(g: Board, w: nat, h: nat, x0: nat, y0: nat)
    requires Shaped(g, w, h) && VisitedClosed(g, w, h)
    requires x0 < w && y0 < h && g[y0][x0].visited
    ensures AllVisited(g, w, h)
  {
    forall y: nat, x: nat | y < h && x < w ensures g[y][x].visited {
      RowWalk(g, w, h, x0, y0, x);
      ColumnWalk(g, w, h, x, y0, y);
    }
  }

  /** A finished maze has exactly width * height - 1 passages and every cell is
      reachable from the start: it is a spanning tree of the grid. */
  lemma PerfectMazeSpans(g: Board, w: nat, h: nat, root: Coord)
    requires PerfectMaze(g, w, h, root)
    ensures Passages(g) + 1 == w * h
    ensures forall y: nat, x: nat | y < h && x < w :: Reachable(g, w, h, root, (x, y))
  {
    GridSumConstant(g, w, h, VisitedScore, 1);
  }

  // ---------------------------------------------------------------------
  // Starting a maze

  lemma StartCells(w: nat, h: nat, sx: nat, sy: nat)
    requires sx < w && sy < h
    ensures var r := MarkVisited(NewGrid(w, h), sx, sy);
      && Shaped(r, w, h)
      && (forall j: nat, i: nat | j < h && i < w :: r[j][i].walls == [true, true, true, true])
      && (forall j: nat, i: nat | j < h && i < w :: r[j][i].visited <==> (i, j) == (sx, sy))
  {
  }

  lemma StartCounts(w: nat, h: nat, sx: nat, sy: nat)
    requires sx < w && sy < h
    ensures var r := MarkVisited(NewGrid(w, h), sx, sy);
      Passages(r) == 0 && VisitedCount(r) == 1
  {
    var g := NewGrid(w, h);
    var r := MarkVisited(g, sx, sy);
    GridSumConstant(g, w, h, PassageScore, 0);
    GridSumConstant(g, w, h, VisitedScore, 0);
    SetNodeSum(g, sx, sy, r[sy][sx], PassageScore);
    SetNodeSum(g, sx, sy, r[sy][sx], VisitedScore);
  }

  /** Marking one cell of a fresh grid visited starts a maze rooted there. */
  lemma StartIsPerfectSoFar(w: nat, h: nat, sx: nat, sy: nat)
    requires sx < w && sy < h
    ensures PerfectSoFar(MarkVisited(NewGrid(w, h), sx, sy), w, h, (sx, sy))
  {
    var r: Board := MarkVisited(NewGrid(w, h), sx, sy);
    StartCells(w, h, sx, sy);
    StartCounts(w, h, sx, sy);
    forall j: nat, i: nat, k: nat | j < h && i < w && k < 4 ensures WallAgrees(r, w, h, i, j, k) {
      assert r[j][i].walls[k];
      if HasNeighbor(w, h, i, j, k) {
        var n := Neighbor(i, j, k);
        assert r[n.1][n.0].walls[Opposite(k)];
      }
    }
    assert IsPath(r, w, h, [(sx, sy)]);
    assert Reachable(r, w, h, (sx, sy), (sx, sy));
  }

  // ---------------------------------------------------------------------
  // A cell cut off from the rest

  /** A visited cell that still has all four walls. */
  ghost predicate Sealed(g: Board, w: nat, h: nat, c: Coord)
    requires Shaped(g, w, h)
  {
    InGrid(w, h, c) && g[c.1][c.0].visited && g[c.1][c.0].walls == [true, true, true, true]
  }

  lemma SealedHasNoPassage(g: Board, w: nat, h: nat, c: Coord, b: Coord)
    requires Shaped(g, w, h) && Sealed(g, w, h, c)
    ensures !Linked(g, w, h, c, b)
  {
  }

  /** No path leaves a sealed cell. */
  lemma SealedReachesNothing(g: Board, w: nat, h: nat, c: Coord, b: Coord)
    requires Shaped(g, w, h) && Sealed(g, w, h, c) && b != c
    ensures !Reachable(g, w, h, c, b)
  {
    if Reachable(g, w, h, c, b) {
      var p :| IsPath(g, w, h, p) && p[0] == c && p[|p| - 1] == b;
      SealedHasNoPassage(g, w, h, c, p[1]);
    }
  }

  lemma LinkedViaBack(g: Board, w: nat, h: nat, a: Coord, b: Coord, d: nat)
    requires Shaped(g, w, h) && Agreeing(g, w, h) && LinkedVia(g, w, h, a, b, d)
    ensures LinkedVia(g, w, h, b, a, Opposite(d))
  {
    assert WallAgrees(g, w, h, a.0, a.1, d);
    NeighborBack(w, h, a.0, a.1, d);
  }

  /** Passages run both ways when wall pairs agree. */
  lemma LinkedBack(g: Board, w: nat, h: nat, a: Coord, b: Coord)
    requires Shaped(g, w, h) && Agreeing(g, w, h) && Linked(g, w, h, a, b)
    ensures Linked(g, w, h, b, a)
  {
    if LinkedVia(g, w, h, a, b, 0) {
      LinkedViaBack(g, w, h, a, b, 0);
    } else if LinkedVia(g, w, h, a, b, 1) {
      LinkedViaBack(g, w, h, a, b, 1);
    } else if LinkedVia(g, w, h, a, b, 2) {
      LinkedViaBack(g, w, h, a, b, 2);
    } else {
      LinkedViaBack(g, w, h, a, b, 3);
    }
  }

  /** No path enters a sealed cell when wall pairs agree. */
  lemma SealedReachedByNothing(g: Board, w: nat, h: nat, c: Coord, a: Coord)
    requires Shaped(g, w, h) && Agreeing(g, w, h) && Sealed(g, w, h, c) && a != c
    ensures !Reachable(g, w, h, a, c)
  {
    if Reachable(g, w, h, a, c) {
      var p :| IsPath(g, w, h, p) && p[0] == a && p[|p| - 1] == c;
      var k := |p| - 2;
      assert Linked(g, w, h, p[k], p[k + 1]);
      LinkedBack(g, w, h, p[k], c);
    }
  }

  /** On a grid of more than one cell, a sealed cell rules out a perfect maze,
      whatever cell it is rooted at. */
  lemma SealedCellBreaksMaze(g: Board, w: nat, h: nat, c: Coord, root: Coord)
    requires Shaped(g, w, h) && Sealed(g, w, h, c)
    requires w >= 2 || h >= 2
    ensures !PerfectMaze(g, w, h, root)
  {
    if PerfectMaze(g, w, h, root) {
      var other: Coord := if c.0 > 0 then (c.0 - 1, c.1) else if c.0 + 1 < w then (c.0 + 1, c.1)
                          else if c.1 > 0 then (c.0, c.1 - 1) else (c.0, c.1 + 1);
      assert g[other.1][other.0].visited;
      if root == c {
        SealedReachesNothing(g, w, h, c, other);
      } else {
        SealedReachedByNothing(g, w, h, c, root);
      }
    }
  }
}
