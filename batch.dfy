// The batch generator: a maze built in one call, by the backtracker or by
// Prim's, from a start cell chosen by two random draws. A call that would
// panic (a modulus by zero, an index outside the grid) is reported as a
// failed call.

module Batch {
  import opened Grid
  import opened Carving
  import opened Dfs
  import opened Prims

  /** `walls.shuffle(&mut rng)`, Fisher-Yates: for i from the last index down to
      1, swap entry i with entry `draws(i) % (i + 1)`. Whatever the draws, the
      result is a rearrangement of the input. */
  method Shuffle(s: seq<Entry>, draws: nat -> nat) returns (r: seq<Entry>)
    ensures |r| == |s| && multiset(r) == multiset(s)
  {
    r := s;
    var i := |r|;
    while i > 1
      invariant 0 <= i <= |r| == |s|
      invariant multiset(r) == multiset(s)
    {
      i := i - 1;
      var j := draws(i) % (i + 1);
      var a, b := r[i], r[j];
      r := r[i := b][j := a];
    }
  }

  /** As written, the backtracker stacks the start cell with its coordinates
      swapped. For a start off the diagonal whose swapped coordinates are still
      in the grid, the visited start cell is never popped and never carved to:
      it stays sealed, and no maze rooted anywhere is perfect. */
  lemma TransposedStartBreaksMaze(w: nat, h: nat, sx: nat, sy: nat, rolls: nat -> nat, root: Coord)
    requires sx < w && sy < h && sy < w && sx < h && sx != sy
    ensures !PerfectMaze(DfsRun(MarkVisited(NewGrid(w, h), sx, sy), w, h, [(sy, sx)], rolls, 0), w, h, root)
  {
    var g := MarkVisited(NewGrid(w, h), sx, sy);
    assert g[sy][sx] == NewGrid(w, h)[sy][sx].(visited := true);
    assert Sealed(g, w, h, (sx, sy));
    DfsRunKeepsSealed(g, w, h, [(sy, sx)], rolls, 0, (sx, sy));
    SealedCellBreaksMaze(DfsRun(g, w, h, [(sy, sx)], rolls, 0), w, h, (sx, sy), root);
  }

  class Maze {
    const width: nat
    const height: nat
    var grid: Board

    ghost predicate Valid()
      reads this
    {
      Shaped(grid, width, height)
    }

    /** `Maze::new`: every cell unvisited and walled in. */
    constructor (width: nat, height: nat)
      ensures this.width == width && this.height == height
      ensures grid == NewGrid(width, height)
      ensures Valid()
    {
      this.width := width;
      this.height := height;
      grid := NewGrid(width, height);
    }

    /** The backtracker's loop, `while let Some((x, y)) = stack.pop()`, from the
        current grid and `stack`; pass k draws `rolls(k)`. */
    method Backtrack(stack: seq<Coord>, rolls: nat -> nat)
      requires Valid() && StackWithin(stack, width, height)
      modifies this
      ensures Valid()
      ensures grid == DfsRun(old(grid), width, height, stack, rolls, 0)
    {
      ghost var target := DfsRun(grid, width, height, stack, rolls, 0);
      var stack := stack;
      var k := 0;
      while stack != []
        invariant Valid() && StackWithin(stack, width, height)
        invariant DfsRun(grid, width, height, stack, rolls, k) == target
        decreases UnvisitedCount(grid), |stack|
      {
        ghost var g0, s0 := grid, stack;
        var (x, y) := stack[|stack| - 1];
        stack := stack[..|stack| - 1];
        var neighbors := UnvisitedNeighbors(grid, width, height, x, y);
        if neighbors != [] {
          var (nx, ny, currentWall, neighborWall) := neighbors[rolls(k) % |neighbors|];
          grid := ClearWall(grid, x, y, currentWall);
          grid := ClearWall(grid, nx, ny, neighborWall);
          grid := MarkVisited(grid, nx, ny);
          stack := stack + [(x, y), (nx, ny)];
        }
        assert (grid, stack) == DfsIteration(g0, width, height, s0, rolls(k));
        DfsIterationProgress(g0, width, height, s0, rolls(k));
        k := k + 1;
      }
    }

    /** `dfs_maze` as written: the start is (rx % width, ry % height), marked
        visited, but the stack starts with the swapped pair. The call panics on
        an empty grid, and at the first pop when the swapped pair lies outside
        the grid. Otherwise it is the backtracker run from the swapped pair: a
        perfect maze from a fresh grid when the start is on the diagonal, and
        never a perfect maze when it is not. */
    method DfsMaze(rx: nat, ry: nat, rolls: nat -> nat) returns (ok: bool)
      requires Valid()
      modifies this
      ensures Valid()
      ensures ok ==> width > 0 && height > 0
      ensures (width == 0 || height == 0) ==> !ok && grid == old(grid)
      ensures width > 0 && height > 0 ==>
        var sx, sy := rx % width, ry % height;
        && (ok <==> sy < width && sx < height)
        && (!ok ==> grid == MarkVisited(old(grid), sx, sy))
        && (ok ==> grid == DfsRun(MarkVisited(old(grid), sx, sy), width, height, [(sy, sx)], rolls, 0))
        && (ok && old(grid) == NewGrid(width, height) && sx == sy ==> PerfectMaze(grid, width, height, (sx, sy)))
        && (ok && old(grid) == NewGrid(width, height) && sx != sy ==> forall root :: !PerfectMaze(grid, width, height, root))
    {
      if width == 0 || height == 0 {
        return false;
      }
      ghost var g0 := grid;
      var sx, sy := rx % width, ry % height;
      grid := MarkVisited(grid, sx, sy);
      if !(sy < width && sx < height) {
        return false;
      }
      Backtrack([(sy, sx)], rolls);
      if g0 == NewGrid(width, height) {
        if sx == sy {
          DfsFromStartIsPerfect(width, height, sx, sy, rolls);
        } else {
          forall root ensures !PerfectMaze(grid, width, height, root) {
            TransposedStartBreaksMaze(width, height, sx, sy, rolls, root);
          }
        }
      }
      ok := true;
    }

    /** `dfs_maze` as evidently intended: the start cell itself is stacked. From a
        fresh grid it always yields a perfect maze rooted at the start. */
    method DfsMazeFixed(rx: nat, ry: nat, rolls: nat -> nat) returns (ok: bool)
      requires Valid()
      modifies this
      ensures Valid()
      ensures ok <==> width > 0 && height > 0
      ensures !ok ==> grid == old(grid)
      ensures ok ==>
        var sx, sy := rx % width, ry % height;
        && grid == DfsRun(MarkVisited(old(grid), sx, sy), width, height, [(sx, sy)], rolls, 0)
        && (old(grid) == NewGrid(width, height) ==> PerfectMaze(grid, width, height, (sx, sy)))
    {
      if width == 0 || height == 0 {
        return false;
      }
      ghost var g0 := grid;
      var sx, sy := rx % width, ry % height;
      grid := MarkVisited(grid, sx, sy);
      Backtrack([(sx, sy)], rolls);
      if g0 == NewGrid(width, height) {
        DfsFromStartIsPerfect(width, height, sx, sy, rolls);
      }
      ok := true;
    }

    /** Prim's loop, `while !walls.is_empty()`, from the current grid and
        frontier; pass k removes entry `rolls(k) % |walls|`. */
    method Grow(walls: seq<Entry>, rolls: nat -> nat)
      requires Valid() && EntriesWithin(walls, width, height)
      modifies this
      ensures Valid()
      ensures grid == PrimsRun(old(grid), width, height, walls, rolls, 0)
    {
      ghost var target := PrimsRun(grid, width, height, walls, rolls, 0);
      var walls := walls;
      var k := 0;
      while walls != []
        invariant Valid() && EntriesWithin(walls, width, height)
        invariant PrimsRun(grid, width, height, walls, rolls, k) == target
        decreases UnvisitedCount(grid), |walls|
      {
        ghost var g0, s0 := grid, walls;
        var index := rolls(k) % |walls|;
        var (x1, y1, x2, y2) := walls[index];
        walls := RemoveAt(walls, index);
        if !grid[y2][x2].visited {
          grid := ClearBetween(MarkVisited(grid, x2, y2), x1, y1, x2, y2);
          walls := walls + NewEntries(grid, width, height, x2, y2);
        }
        assert (grid, walls) == PrimsIteration(g0, width, height, s0, index);
        PrimsIterationProgress(g0, width, height, s0, index);
        k := k + 1;
      }
    }

    /** `prims_maze`: the start is (rx % width, ry % height), marked visited; its
        frontier is shuffled by `draws`; then each pass removes entry
        `rolls(k) % |walls|` and carves through it if its far cell is still
        unvisited. The call panics on an empty grid. From a fresh grid it always
        yields a perfect maze rooted at the start. */
    method PrimsMaze(rx: nat, ry: nat, draws: nat -> nat, rolls: nat -> nat) returns (ok: bool)
      requires Valid()
      modifies this
      ensures Valid()
      ensures ok <==> width > 0 && height > 0
      ensures !ok ==> grid == old(grid)
      ensures ok ==>
        var sx, sy := rx % width, ry % height;
        && (exists walls: seq<Entry> ::
              && multiset(walls) == multiset(InitialFrontier(width, height, sx, sy))
              && EntriesWithin(walls, width, height)
              && grid == PrimsRun(MarkVisited(old(grid), sx, sy), width, height, walls, rolls, 0))
        && (old(grid) == NewGrid(width, height) ==> PerfectMaze(grid, width, height, (sx, sy)))
    {
      if width == 0 || height == 0 {
        return false;
      }
      ghost var g0 := grid;
      var sx, sy := rx % width, ry % height;
      grid := MarkVisited(grid, sx, sy);
      var walls := Shuffle(InitialFrontier(width, height, sx, sy), draws);
      StartFrontierEntries(width, height, sx, sy, walls);
      Grow(walls, rolls);
      if g0 == NewGrid(width, height) {
        PrimsFromStartIsPerfect(width, height, sx, sy, walls, rolls);
      }
      ok := true;
    }
  }
}
