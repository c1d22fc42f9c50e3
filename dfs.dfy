// The recursive backtracker: neighbour enumeration, one pass of the popping
// loop, the loop run to an empty stack, and what each of these keeps.

module Dfs {
  import opened Grid
  import opened Carving

  /** A candidate move: (nx, ny, wall of the current cell, wall of the neighbour). */
  type Move = (nat, nat, nat, nat)

  predicate StackWithin(stack: seq<Coord>, w: nat, h: nat) {
    forall i | 0 <= i < |stack| :: InGrid(w, h, stack[i])
  }

  /** The in-bounds, unvisited neighbours of (x, y), in the order left, right, top,
      bottom, each with the wall pair a passage to it clears. */
  function UnvisitedNeighbors(g: Board, w: nat, h: nat, x: nat, y: nat): (r: seq<Move>)
    requires Shaped(g, w, h) && x < w && y < h
    ensures |r| <= 4
    ensures forall i | 0 <= i < |r| ::
      && r[i].2 < 4 && HasNeighbor(w, h, x, y, r[i].2)
      && Neighbor(x, y, r[i].2) == (r[i].0, r[i].1)
      && r[i].3 == Opposite(r[i].2)
      && !g[r[i].1][r[i].0].visited
    ensures forall d: nat | d < 4 && HasNeighbor(w, h, x, y, d) ::
      var n := Neighbor(x, y, d);
      !g[n.1][n.0].visited ==> (n.0, n.1, d, Opposite(d)) in r
  {
    (if x > 0 && !g[y][x - 1].visited then [(x - 1, y, 3, 1)] else [])
    + (if x + 1 < w && !g[y][x + 1].visited then [(x + 1, y, 1, 3)] else [])
    + (if y > 0 && !g[y - 1][x].visited then [(x, y - 1, 0, 2)] else [])
    + (if y + 1 < h && !g[y + 1][x].visited then [(x, y + 1, 2, 0)] else [])
  }

  /** No candidate is listed twice, so each unvisited neighbour is listed once. */
  lemma UnvisitedNeighborsDistinct(g: Board, w: nat, h: nat, x: nat, y: nat)
    requires Shaped(g, w, h) && x < w && y < h
    ensures var r := UnvisitedNeighbors(g, w, h, x, y);
      forall i, j | 0 <= i < j < |r| :: r[i] != r[j]
  {
  }

  /** No candidate is listed exactly when every in-bounds neighbour is visited. */
  lemma NoCandidateIffClosed(g: Board, w: nat, h: nat, x: nat, y: nat)
    requires Shaped(g, w, h) && x < w && y < h
    ensures UnvisitedNeighbors(g, w, h, x, y) == [] <==> Closed(g, w, h, x, y)
  {
    if Closed(g, w, h, x, y) {
      assert HasNeighbor(w, h, x, y, 0) ==> g[y - 1][x].visited;
      assert HasNeighbor(w, h, x, y, 1) ==> g[y][x + 1].visited;
      assert HasNeighbor(w, h, x, y, 2) ==> g[y + 1][x].visited;
      assert HasNeighbor(w, h, x, y, 3) ==> g[y][x - 1].visited;
    }
  }

  /** One pass of the backtracking loop on a non-empty stack: pop the top cell; if
      it has unvisited neighbours, clear the wall pair to the one `roll` picks, mark
      it visited, and push the cell back followed by the neighbour. */
  function DfsIteration(g: Board, w: nat, h: nat, stack: seq<Coord>, roll: nat): (r: (Board, seq<Coord>))
    requires Shaped(g, w, h) && |stack| > 0 && StackWithin(stack, w, h)
    ensures Shaped(r.0, w, h) && StackWithin(r.1, w, h)
  {
    var (x, y) := stack[|stack| - 1];
    var rest := stack[..|stack| - 1];
    var ns := UnvisitedNeighbors(g, w, h, x, y);
    if ns == [] then (g, rest)
    else
      var (nx, ny, currentWall, neighborWall) := ns[roll % |ns|];
      var g' := MarkVisited(ClearWall(ClearWall(g, x, y, currentWall), nx, ny, neighborWall), nx, ny);
      (g', rest + [(x, y), (nx, ny)])
  }

  /** A pass either backtracks, exactly when the popped cell has no unvisited
      neighbour, leaving the grid alone and the stack one shorter; or carves a
      passage to an unvisited neighbour, which ends on top of the stack with the
      popped cell beneath it. */
  lemma DfsIterationCases(g: Board, w: nat, h: nat, stack: seq<Coord>, roll: nat)
    requires Shaped(g, w, h) && |stack| > 0 && StackWithin(stack, w, h)
    ensures var top, r := stack[|stack| - 1], DfsIteration(g, w, h, stack, roll);
      if Closed(g, w, h, top.0, top.1) then
        r.0 == g && r.1 == stack[..|stack| - 1]
      else
        exists d: nat | d < 4 && HasNeighbor(w, h, top.0, top.1, d) ::
          var n := Neighbor(top.0, top.1, d);
          && !g[n.1][n.0].visited
          && r.0 == Link(g, w, h, top.0, top.1, d)
          && r.1 == stack + [n]
  {
    var (x, y) := stack[|stack| - 1];
    var ns := UnvisitedNeighbors(g, w, h, x, y);
    NoCandidateIffClosed(g, w, h, x, y);
    if ns != [] {
      var m := ns[roll % |ns|];
      var d := m.2;
      assert DfsIteration(g, w, h, stack, roll).1 == stack + [Neighbor(x, y, d)];
    }
  }

  lemma SmallMod(i: nat, n: nat)
    requires i < n
    ensures i % n == i
  {
  }

  /** Every unvisited neighbour of the popped cell is carved to for some draw. */
  lemma DfsEveryNeighborReachable(g: Board, w: nat, h: nat, stack: seq<Coord>, d: nat)
    requires Shaped(g, w, h) && |stack| > 0 && StackWithin(stack, w, h)
    requires var top := stack[|stack| - 1];
      d < 4 && HasNeighbor(w, h, top.0, top.1, d)
      && !g[Neighbor(top.0, top.1, d).1][Neighbor(top.0, top.1, d).0].visited
    ensures var top := stack[|stack| - 1];
      exists roll: nat :: DfsIteration(g, w, h, stack, roll).1 == stack + [Neighbor(top.0, top.1, d)]
  {
    var (x, y) := stack[|stack| - 1];
    var ns := UnvisitedNeighbors(g, w, h, x, y);
    var n := Neighbor(x, y, d);
    assert (n.0, n.1, d, Opposite(d)) in ns;
    var i :| 0 <= i < |ns| && ns[i] == (n.0, n.1, d, Opposite(d));
    SmallMod(i, |ns|);
    assert ns[i % |ns|] == (n.0, n.1, d, Opposite(d));
    var rest := stack[..|stack| - 1];
    assert DfsIteration(g, w, h, stack, i).1 == rest + [(x, y), n];
    assert rest + [(x, y), n] == stack + [n];
  }

  /** Each pass makes progress: either one more cell is visited, or the stack
      shrinks with the visited cells unchanged. */
  lemma DfsIterationProgress(g: Board, w: nat, h: nat, stack: seq<Coord>, roll: nat)
    requires Shaped(g, w, h) && |stack| > 0 && StackWithin(stack, w, h)
    ensures var r := DfsIteration(g, w, h, stack, roll);
      || UnvisitedCount(r.0) < UnvisitedCount(g)
      || (UnvisitedCount(r.0) == UnvisitedCount(g) && |r.1| < |stack|)
  {
    var top := stack[|stack| - 1];
    DfsIterationCases(g, w, h, stack, roll);
    if !Closed(g, w, h, top.0, top.1) {
      var d: nat :| d < 4 && HasNeighbor(w, h, top.0, top.1, d)
        && var n := Neighbor(top.0, top.1, d);
        && !g[n.1][n.0].visited
        && DfsIteration(g, w, h, stack, roll).0 == Link(g, w, h, top.0, top.1, d);
      LinkCounts(g, w, h, top.0, top.1, d);
    }
  }

  // ---------------------------------------------------------------------
  // The backtracker's invariant

  /** The maze so far is a tree rooted at `root`, the stack holds visited cells,
      and a visited cell off the stack has no unvisited neighbour left. */
  ghost predicate DfsInv(g: Board, w: nat, h: nat, stack: seq<Coord>, root: Coord) {
    && Shaped(g, w, h)
    && PerfectSoFar(g, w, h, root)
    && StackWithin(stack, w, h)
    && (forall i | 0 <= i < |stack| :: g[stack[i].1][stack[i].0].visited)
    && (forall y: nat, x: nat | y < h && x < w && g[y][x].visited && (x, y) !in stack :: Closed(g, w, h, x, y))
  }

  lemma ClosedKept(g: Board, g': Board, w: nat, h: nat, x: nat, y: nat)
    requires Shaped(g, w, h) && Shaped(g', w, h) && x < w && y < h
    requires VisitedKept(g, g', w, h) && Closed(g, w, h, x, y)
    ensures Closed(g', w, h, x, y)
  {
    forall d: nat | d < 4 && HasNeighbor(w, h, x, y, d)
      ensures var n := Neighbor(x, y, d); g'[n.1][n.0].visited
    {
      var n := Neighbor(x, y, d);
      assert g[n.1][n.0].visited;
    }
  }

  lemma BacktrackKeepsInv(g: Board, w: nat, h: nat, stack: seq<Coord>, root: Coord)
    requires DfsInv(g, w, h, stack, root) && |stack| > 0
    requires var top := stack[|stack| - 1]; Closed(g, w, h, top.0, top.1)
    ensures DfsInv(g, w, h, stack[..|stack| - 1], root)
  {
    var rest := stack[..|stack| - 1];
    var top := stack[|stack| - 1];
    assert stack == rest + [top];
    forall i | 0 <= i < |rest| ensures InGrid(w, h, rest[i]) && g[rest[i].1][rest[i].0].visited {
      assert rest[i] == stack[i];
    }
    forall y: nat, x: nat | y < h && x < w && g[y][x].visited && (x, y) !in rest
      ensures Closed(g, w, h, x, y)
    {
      if (x, y) != top {
        assert (x, y) !in stack;
      }
    }
  }

  lemma CarveKeepsInv(g: Board, w: nat, h: nat, stack: seq<Coord>, root: Coord, d: nat)
    requires DfsInv(g, w, h, stack, root) && |stack| > 0
    requires var top := stack[|stack| - 1];
      && d < 4 && HasNeighbor(w, h, top.0, top.1, d)
      && var n := Neighbor(top.0, top.1, d); !g[n.1][n.0].visited
    ensures var top := stack[|stack| - 1];
      DfsInv(Link(g, w, h, top.0, top.1, d), w, h, stack + [Neighbor(top.0, top.1, d)], root)
  {
    var top := stack[|stack| - 1];
    var n := Neighbor(top.0, top.1, d);
    var g': Board := Link(g, w, h, top.0, top.1, d);
    var s' := stack + [n];
    LinkKeepsPerfectSoFar(g, w, h, root, top.0, top.1, d);
    LinkAt(g, w, h, top.0, top.1, d);
    forall i | 0 <= i < |s'| ensures g'[s'[i].1][s'[i].0].visited {
      if i < |stack| {
        assert s'[i] == stack[i];
      }
    }
    forall y: nat, x: nat | y < h && x < w && g'[y][x].visited && (x, y) !in s'
      ensures Closed(g', w, h, x, y)
    {
      assert (x, y) != n && (x, y) !in stack;
      ClosedKept(g, g', w, h, x, y);
    }
  }

  /** One pass keeps the invariant, whatever `roll` picks. */
  lemma DfsIterationKeepsInv(g: Board, w: nat, h: nat, stack: seq<Coord>, root: Coord, roll: nat)
    requires DfsInv(g, w, h, stack, root) && |stack| > 0
    ensures var r := DfsIteration(g, w, h, stack, roll);
      && DfsInv(r.0, w, h, r.1, root)
      && WallsOnlyCleared(g, r.0, w, h)
      && VisitedKept(g, r.0, w, h)
  {
    var top := stack[|stack| - 1];
    DfsIterationCases(g, w, h, stack, roll);
    if Closed(g, w, h, top.0, top.1) {
      BacktrackKeepsInv(g, w, h, stack, root);
    } else {
      var d: nat :| d < 4 && HasNeighbor(w, h, top.0, top.1, d)
        && var n := Neighbor(top.0, top.1, d);
        && !g[n.1][n.0].visited
        && DfsIteration(g, w, h, stack, roll).0 == Link(g, w, h, top.0, top.1, d)
        && DfsIteration(g, w, h, stack, roll).1 == stack + [n];
      CarveKeepsInv(g, w, h, stack, root, d);
      LinkKeepsPerfectSoFar(g, w, h, root, top.0, top.1, d);
    }
  }

  /** With the stack empty, the invariant says the maze is finished. */
  lemma EmptyStackIsPerfect(g: Board, w: nat, h: nat, root: Coord)
    requires DfsInv(g, w, h, [], root)
    ensures PerfectMaze(g, w, h, root)
  {
    ClosedMeansAllVisited(g, w, h, root.0, root.1);
  }

  // ---------------------------------------------------------------------
  // The loop run to completion

  /** `while let Some((x, y)) = stack.pop() { ... }`, pass k drawing `rolls(k)`. */
  function DfsRun(g: Board, w: nat, h: nat, stack: seq<Coord>, rolls: nat -> nat, k: nat): (r: Board)
    requires Shaped(g, w, h) && StackWithin(stack, w, h)
    ensures Shaped(r, w, h)
    decreases UnvisitedCount(g), |stack|
  {
    if stack == [] then g
    else
      var (g', s') := DfsIteration(g, w, h, stack, rolls(k));
      DfsIterationProgress(g, w, h, stack, rolls(k));
      DfsRun(g', w, h, s', rolls, k + 1)
  }

  /** Run from a state satisfying the invariant, the backtracker ends with a
      perfect maze: every cell visited, connected to the root, one passage fewer
      than cells. */
  lemma {:induction false} DfsRunPerfect(g: Board, w: nat, h: nat, stack: seq<Coord>, rolls: nat -> nat, k: nat, root: Coord)
    requires DfsInv(g, w, h, stack, root)
    ensures PerfectMaze(DfsRun(g, w, h, stack, rolls, k), w, h, root)
    decreases UnvisitedCount(g), |stack|
  {
    if stack == [] {
      EmptyStackIsPerfect(g, w, h, root);
    } else {
      var r := DfsIteration(g, w, h, stack, rolls(k));
      DfsIterationProgress(g, w, h, stack, rolls(k));
      DfsIterationKeepsInv(g, w, h, stack, root, rolls(k));
      DfsRunPerfect(r.0, w, h, r.1, rolls, k + 1, root);
    }
  }

  /** Starting from one visited cell of a fresh grid with that cell on the stack,
      the backtracker builds a perfect maze rooted there, for every sequence of
      draws. */
  lemma DfsFromStartIsPerfect(w: nat, h: nat, sx: nat, sy: nat, rolls: nat -> nat)
    requires sx < w && sy < h
    ensures PerfectMaze(DfsRun(MarkVisited(NewGrid(w, h), sx, sy), w, h, [(sx, sy)], rolls, 0), w, h, (sx, sy))
  {
    var g := MarkVisited(NewGrid(w, h), sx, sy);
    StartIsPerfectSoFar(w, h, sx, sy);
    assert DfsInv(g, w, h, [(sx, sy)], (sx, sy));
    DfsRunPerfect(g, w, h, [(sx, sy)], rolls, 0, (sx, sy));
  }

  // ---------------------------------------------------------------------
  // A sealed cell off the stack stays sealed

  /** The loop only changes walls of the popped cell and of an unvisited
      neighbour, so a visited, fully walled cell that is not on the stack is never
      touched and never pushed. */
  lemma DfsIterationKeepsSealed(g: Board, w: nat, h: nat, stack: seq<Coord>, roll: nat, c: Coord)
    requires Shaped(g, w, h) && |stack| > 0 && StackWithin(stack, w, h)
    requires Sealed(g, w, h, c) && c !in stack
    ensures var r := DfsIteration(g, w, h, stack, roll);
      Sealed(r.0, w, h, c) && c !in r.1
  {
    var top := stack[|stack| - 1];
    DfsIterationCases(g, w, h, stack, roll);
    if !Closed(g, w, h, top.0, top.1) {
      var d: nat :| d < 4 && HasNeighbor(w, h, top.0, top.1, d)
        && var n := Neighbor(top.0, top.1, d);
        && !g[n.1][n.0].visited
        && DfsIteration(g, w, h, stack, roll).0 == Link(g, w, h, top.0, top.1, d)
        && DfsIteration(g, w, h, stack, roll).1 == stack + [n];
      LinkCellAt(g, w, h, top.0, top.1, d, c.0, c.1);
    } else {
      assert stack[..|stack| - 1] <= stack;
    }
  }

  lemma {:induction false} DfsRunKeepsSealed(g: Board, w: nat, h: nat, stack: seq<Coord>, rolls: nat -> nat, k: nat, c: Coord)
    requires Shaped(g, w, h) && StackWithin(stack, w, h)
    requires Sealed(g, w, h, c) && c !in stack
    ensures Sealed(DfsRun(g, w, h, stack, rolls, k), w, h, c)
    decreases UnvisitedCount(g), |stack|
  {
    if stack != [] {
      var r := DfsIteration(g, w, h, stack, rolls(k));
      DfsIterationProgress(g, w, h, stack, rolls(k));
      DfsIterationKeepsSealed(g, w, h, stack, rolls(k), c);
      DfsRunKeepsSealed(r.0, w, h, r.1, rolls, k + 1, c);
    }
  }
}
