// The interactive generator: a maze that advances a few micro-steps at a time so
// that each intermediate state can be drawn. Before every micro-step the display
// flags are reset and the working set (the DFS stack, or the far cells of the
// Prim's frontier) is highlighted.

module Engine {
  import opened Grid
  import opened Carving
  import opened Dfs
  import opened Prims

  datatype Option<T> = None | Some(value: T)

  /** The algorithm in progress, with the working set it owns. */
  datatype MazeGenerator =
    | DfsGenerator(stack: seq<Coord>)
    | PrimsGenerator(walls: seq<Entry>)

  /** A maze state: a w-by-h grid and, if a generator runs, one whose cells lie
      within it. */
  predicate Consistent(g: Board, gen: Option<MazeGenerator>, w: nat, h: nat) {
    Shaped(g, w, h) && (gen.Some? ==> GeneratorWithin(gen.value, w, h))
  }

  predicate GeneratorWithin(gen: MazeGenerator, w: nat, h: nat) {
    match gen
    case DfsGenerator(stack) => StackWithin(stack, w, h)
    case PrimsGenerator(walls) => EntriesWithin(walls, w, h)
  }

  // ---------------------------------------------------------------------
  // Display flags

  /** Every node with `isCurrent` and `inStack` lowered. */
  function ClearFlags(g: Board): (r: Board)
    ensures |r| == |g| && forall y | 0 <= y < |g| :: |r[y]| == |g[y]|
  {
    seq(|g|, (y: int) requires 0 <= y < |g| =>
      seq(|g[y]|, (x: int) requires 0 <= x < |g[y]| => g[y][x].(isCurrent := false, inStack := false)))
  }

  /** `inStack` raised on each listed cell, first to last. */
  function MarkInStack(g: Board, w: nat, h: nat, cells: seq<Coord>): (r: Board)
    requires Shaped(g, w, h) && StackWithin(cells, w, h)
    ensures Shaped(r, w, h)
    decreases |cells|
  {
    if cells == [] then g
    else
      var c := cells[|cells| - 1];
      var g' := MarkInStack(g, w, h, cells[..|cells| - 1]);
      SetNode(g', c.0, c.1, g'[c.1][c.0].(inStack := true))
  }

  /** The far cell of every frontier entry. */
  function Targets(walls: seq<Entry>): (r: seq<Coord>)
    ensures |r| == |walls| && forall i | 0 <= i < |walls| :: r[i] == (walls[i].2, walls[i].3)
  {
    seq(|walls|, (i: int) requires 0 <= i < |walls| => (walls[i].2, walls[i].3))
  }

  lemma TargetsWithin(walls: seq<Entry>, w: nat, h: nat)
    requires EntriesWithin(walls, w, h)
    ensures StackWithin(Targets(walls), w, h)
  {
  }

  lemma {:induction false} MarkInStackAt(g: Board, w: nat, h: nat, cells: seq<Coord>)
    requires Shaped(g, w, h) && StackWithin(cells, w, h)
    ensures var r := MarkInStack(g, w, h, cells);
      forall y: nat, x: nat | y < h && x < w :: r[y][x] == g[y][x].(inStack := g[y][x].inStack || (x, y) in cells)
    decreases |cells|
  {
    if cells != [] {
      var init := cells[..|cells| - 1];
      var c := cells[|cells| - 1];
      assert cells == init + [c];
      MarkInStackAt(g, w, h, init);
      forall y: nat, x: nat | y < h && x < w
        ensures (x, y) in cells <==> (x, y) in init || (x, y) == c
      {
      }
    }
  }

  /** Two grids that differ at most in the display flags. */
  ghost predicate SameLayout(g: Board, g': Board, w: nat, h: nat) {
    && Shaped(g, w, h) && Shaped(g', w, h)
    && forall y: nat, x: nat | y < h && x < w ::
         g'[y][x].visited == g[y][x].visited && g'[y][x].walls == g[y][x].walls
  }

  /** The flag pass that opens every micro-step: nothing is current, exactly the
      listed cells are highlighted, and the maze itself is untouched. */
  lemma FlagsShowWorkingSet(g: Board, w: nat, h: nat, cells: seq<Coord>)
    requires Shaped(g, w, h) && StackWithin(cells, w, h)
    ensures var r := MarkInStack(ClearFlags(g), w, h, cells);
      && SameLayout(g, r, w, h)
      && forall y: nat, x: nat | y < h && x < w ::
           && r[y][x].x == g[y][x].x && r[y][x].y == g[y][x].y
           && !r[y][x].isCurrent
           && (r[y][x].inStack <==> (x, y) in cells)
  {
    MarkInStackAt(ClearFlags(g), w, h, cells);
  }

  // ---------------------------------------------------------------------
  // The flags do not matter to the maze

  lemma LayoutCounts(g: Board, g': Board, w: nat, h: nat)
    requires SameLayout(g, g', w, h)
    ensures VisitedCount(g') == VisitedCount(g)
    ensures UnvisitedCount(g') == UnvisitedCount(g)
    ensures Passages(g') == Passages(g)
  {
    GridSumPointwise(g, g', VisitedScore);
    GridSumPointwise(g, g', UnvisitedScore);
    GridSumPointwise(g, g', PassageScore);
  }

  lemma LayoutKeepsPerfectSoFar(g: Board, g': Board, w: nat, h: nat, root: Coord)
    requires SameLayout(g, g', w, h) && PerfectSoFar(g, w, h, root)
    ensures PerfectSoFar(g', w, h, root)
  {
    LayoutCounts(g, g', w, h);
    forall y: nat, x: nat, d: nat | y < h && x < w && d < 4 ensures WallAgrees(g', w, h, x, y, d) {
      assert WallAgrees(g, w, h, x, y, d);
    }
    forall y: nat, x: nat | y < h && x < w && g'[y][x].visited ensures Reachable(g', w, h, root, (x, y)) {
      ReachableKept(g, g', w, h, root, (x, y));
    }
  }

  lemma LayoutKeepsDfsInv(g: Board, g': Board, w: nat, h: nat, stack: seq<Coord>, root: Coord)
    requires SameLayout(g, g', w, h) && DfsInv(g, w, h, stack, root)
    ensures DfsInv(g', w, h, stack, root)
  {
    LayoutKeepsPerfectSoFar(g, g', w, h, root);
    forall y: nat, x: nat | y < h && x < w && g'[y][x].visited && (x, y) !in stack ensures Closed(g', w, h, x, y) {
      ClosedKept(g, g', w, h, x, y);
    }
  }

  lemma LayoutKeepsPrimsInv(g: Board, g': Board, w: nat, h: nat, walls: seq<Entry>, root: Coord)
    requires SameLayout(g, g', w, h) && PrimsInv(g, w, h, walls, root)
    ensures PrimsInv(g', w, h, walls, root)
  {
    LayoutKeepsPerfectSoFar(g, g', w, h, root);
  }

  // ---------------------------------------------------------------------
  // One micro-step

  /** `dfs_step`: refresh the flags from the stack, then, if the stack is not
      empty, one backtracker pass; the flag says whether there was a pass. */
  function DfsStepSpec(g: Board, w: nat, h: nat, stack: seq<Coord>, roll: nat): (r: (Board, seq<Coord>, bool))
    requires Shaped(g, w, h) && StackWithin(stack, w, h)
    ensures Shaped(r.0, w, h) && StackWithin(r.1, w, h)
  {
    var g1 := MarkInStack(ClearFlags(g), w, h, stack);
    if stack == [] then (g1, stack, false)
    else
      var (g2, s2) := DfsIteration(g1, w, h, stack, roll);
      (g2, s2, true)
  }

  /** `prims_step`: refresh the flags from the frontier's far cells, then, if the
      frontier is not empty, one Prim's pass on entry `roll % |walls|`. */
  function PrimsStepSpec(g: Board, w: nat, h: nat, walls: seq<Entry>, roll: nat): (r: (Board, seq<Entry>, bool))
    requires Shaped(g, w, h) && EntriesWithin(walls, w, h)
    ensures Shaped(r.0, w, h) && EntriesWithin(r.1, w, h)
  {
    TargetsWithin(walls, w, h);
    var g1 := MarkInStack(ClearFlags(g), w, h, Targets(walls));
    if walls == [] then (g1, walls, false)
    else
      var (g2, s2) := PrimsIteration(g1, w, h, walls, roll % |walls|);
      (g2, s2, true)
  }

  /** One micro-step of whichever generator is running. */
  function Advance(g: Board, w: nat, h: nat, gen: MazeGenerator, roll: nat): (r: (Board, MazeGenerator, bool))
    requires Shaped(g, w, h) && GeneratorWithin(gen, w, h)
    ensures Shaped(r.0, w, h) && GeneratorWithin(r.1, w, h)
    ensures r.1.DfsGenerator? == gen.DfsGenerator?
  {
    match gen
    case DfsGenerator(stack) =>
      var (g', s', more) := DfsStepSpec(g, w, h, stack, roll);
      (g', DfsGenerator(s'), more)
    case PrimsGenerator(walls) =>
      var (g', s', more) := PrimsStepSpec(g, w, h, walls, roll);
      (g', PrimsGenerator(s'), more)
  }

  /** The backtracker's micro-step on any state; a state that does not fit the
      grid cannot arise and is reported complete. */
  function DfsMove(w: nat, h: nat): (Board, seq<Coord>, nat) -> (Board, seq<Coord>, bool) {
    (g: Board, s: seq<Coord>, roll: nat) =>
      if Shaped(g, w, h) && StackWithin(s, w, h) then DfsStepSpec(g, w, h, s, roll) else (g, s, false)
  }

  /** Prim's micro-step on any state, likewise. */
  function PrimsMove(w: nat, h: nat): (Board, seq<Entry>, nat) -> (Board, seq<Entry>, bool) {
    (g: Board, s: seq<Entry>, roll: nat) =>
      if Shaped(g, w, h) && EntriesWithin(s, w, h) then PrimsStepSpec(g, w, h, s, roll) else (g, s, false)
  }

  /** Up to `steps` micro-steps of `move` from grid `g` and working set `s`,
      micro-step k drawing `rolls(k)`; the run stops at the first micro-step
      that reports completion. */
  function Run<S>(move: (Board, S, nat) -> (Board, S, bool), g: Board, s: S, steps: nat, rolls: nat -> nat, k: nat): (r: (Board, S, bool))
    ensures !r.2 ==> steps > 0
    decreases steps
  {
    if steps == 0 then (g, s, true)
    else
      var a := move(g, s, rolls(k));
      if a.2 then Run(move, a.0, a.1, steps - 1, rolls, k + 1) else a
  }

  /** `step(steps)`: the grid, the generator left behind, and whether generation
      is still in progress. A micro-step never changes which algorithm is
      running, so the run is the chosen algorithm's own, and the generator is
      dropped at the first micro-step that finds its working set empty;
      `StepsUnfold` gives it back micro-step by micro-step, as `step`'s loop
      takes it. */
  function Steps(g: Board, w: nat, h: nat, gen: Option<MazeGenerator>, steps: nat, rolls: nat -> nat, k: nat): (r: (Board, Option<MazeGenerator>, bool))
    ensures steps == 0 ==> r == (g, gen, true)
    ensures steps > 0 && gen == None ==> r == (g, None, false)
    ensures !r.2 ==> r.1 == None
    ensures r.1.Some? ==> gen.Some? && r.1.value.DfsGenerator? == gen.value.DfsGenerator?
  {
    match gen
    case None => (g, None, steps == 0)
    case Some(DfsGenerator(stack)) =>
      var r := Run(DfsMove(w, h), g, stack, steps, rolls, k);
      (r.0, if r.2 then Some(DfsGenerator(r.1)) else None, r.2)
    case Some(PrimsGenerator(walls)) =>
      var r := Run(PrimsMove(w, h), g, walls, steps, rolls, k);
      (r.0, if r.2 then Some(PrimsGenerator(r.1)) else None, r.2)
  }

  /** One micro-step of `Steps`, unfolded: a running generator advances once;
      on completion it is dropped, otherwise the remaining steps follow. */
  lemma StepsUnfold(g: Board, w: nat, h: nat, gen: MazeGenerator, steps: nat, rolls: nat -> nat, k: nat)
    requires Shaped(g, w, h) && GeneratorWithin(gen, w, h) && steps > 0
    ensures var a := Advance(g, w, h, gen, rolls(k));
      Steps(g, w, h, Some(gen), steps, rolls, k)
      == if a.2 then Steps(a.0, w, h, Some(a.1), steps - 1, rolls, k + 1) else (a.0, None, false)
  {
    match gen
    case DfsGenerator(stack) =>
      var r := DfsStepSpec(g, w, h, stack, rolls(k));
      assert DfsMove(w, h)(g, stack, rolls(k)) == r;
      assert Advance(g, w, h, gen, rolls(k)) == (r.0, DfsGenerator(r.1), r.2);
    case PrimsGenerator(walls) =>
      var r := PrimsStepSpec(g, w, h, walls, rolls(k));
      assert PrimsMove(w, h)(g, walls, rolls(k)) == r;
      assert Advance(g, w, h, gen, rolls(k)) == (r.0, PrimsGenerator(r.1), r.2);
  }

  /** A run of a + b micro-steps is a run of a micro-steps followed, unless it
      reported completion, by a run of b more that continues the draws. */
  lemma {:induction false} RunSplit<S>(move: (Board, S, nat) -> (Board, S, bool), g: Board, s: S, a: nat, b: nat, rolls: nat -> nat, k: nat)
    ensures Run(move, g, s, a + b, rolls, k)
      == var r := Run(move, g, s, a, rolls, k);
         if r.2 then Run(move, r.0, r.1, b, rolls, k + a) else r
    decreases a
  {
    if a > 0 {
      var m := move(g, s, rolls(k));
      if m.2 {
        RunSplit(move, m.0, m.1, a - 1, b, rolls, k + 1);
      }
    }
  }

  /** A paused generation resumes where it stopped: `step(a + b)` is `step(a)`
      followed, while still in progress, by `step(b)` with the next draws. */
  lemma StepsSplit(g: Board, w: nat, h: nat, gen: Option<MazeGenerator>, a: nat, b: nat, rolls: nat -> nat, k: nat)
    ensures Steps(g, w, h, gen, a + b, rolls, k)
      == var r := Steps(g, w, h, gen, a, rolls, k);
         if r.2 then Steps(r.0, w, h, r.1, b, rolls, k + a) else r
  {
    match gen
    case None =>
    case Some(DfsGenerator(stack)) =>
      RunSplit(DfsMove(w, h), g, stack, a, b, rolls, k);
    case Some(PrimsGenerator(walls)) =>
      RunSplit(PrimsMove(w, h), g, walls, a, b, rolls, k);
  }

  // ---------------------------------------------------------------------
  // What the stepping keeps

  /** A backtracker micro-step on a non-empty stack keeps the invariant; on an
      empty stack it reports completion, and the maze is perfect. Visited cells
      stay visited. */
  lemma DfsAdvanceKeepsInv(g: Board, w: nat, h: nat, stack: seq<Coord>, root: Coord, roll: nat)
    requires DfsInv(g, w, h, stack, root)
    ensures var r := DfsStepSpec(g, w, h, stack, roll);
      && (r.2 <==> stack != [])
      && (r.2 ==> DfsInv(r.0, w, h, r.1, root))
      && (!r.2 ==> PerfectMaze(r.0, w, h, root))
      && VisitedKept(g, r.0, w, h)
  {
    var g1 := MarkInStack(ClearFlags(g), w, h, stack);
    FlagsShowWorkingSet(g, w, h, stack);
    LayoutKeepsDfsInv(g, g1, w, h, stack, root);
    if stack == [] {
      EmptyStackIsPerfect(g1, w, h, root);
    } else {
      DfsIterationKeepsInv(g1, w, h, stack, root, roll);
    }
  }

  /** A Prim's micro-step on a non-empty frontier keeps the invariant; on an empty
      frontier it reports completion, and the maze is perfect. Visited cells stay
      visited. */
  lemma PrimsAdvanceKeepsInv(g: Board, w: nat, h: nat, walls: seq<Entry>, root: Coord, roll: nat)
    requires PrimsInv(g, w, h, walls, root)
    ensures var r := PrimsStepSpec(g, w, h, walls, roll);
      && (r.2 <==> walls != [])
      && (r.2 ==> PrimsInv(r.0, w, h, r.1, root))
      && (!r.2 ==> PerfectMaze(r.0, w, h, root))
      && VisitedKept(g, r.0, w, h)
  {
    TargetsWithin(walls, w, h);
    var g1 := MarkInStack(ClearFlags(g), w, h, Targets(walls));
    FlagsShowWorkingSet(g, w, h, Targets(walls));
    LayoutKeepsPrimsInv(g, g1, w, h, walls, root);
    if walls == [] {
      EmptyFrontierIsPerfect(g1, w, h, root);
    } else {
      PrimsIterationKeepsInv(g1, w, h, walls, root, roll % |walls|);
    }
  }

  /** A run keeps whatever one micro-step keeps: if every micro-step from a state
      in `inv` either reports progress and stays in `inv` or reports completion
      with a grid in `done`, then a run started in `inv` is in `inv` while it
      reports progress and has its grid in `done` once it reports completion. */
  lemma {:induction false} RunKeeps<S>(move: (Board, S, nat) -> (Board, S, bool), g: Board, s: S, steps: nat, rolls: nat -> nat, k: nat,
                                       inv: (Board, S) -> bool, done: Board -> bool)
    requires inv(g, s)
    requires forall g': Board, s': S, roll: nat | inv(g', s') ::
      var a := move(g', s', roll); (a.2 ==> inv(a.0, a.1)) && (!a.2 ==> done(a.0))
    ensures var r := Run(move, g, s, steps, rolls, k);
      (r.2 ==> inv(r.0, r.1)) && (!r.2 ==> done(r.0))
    decreases steps
  {
    if steps > 0 {
      var a := move(g, s, rolls(k));
      if a.2 {
        RunKeeps(move, a.0, a.1, steps - 1, rolls, k + 1, inv, done);
      }
    }
  }

  /** However many micro-steps are asked of a running backtracker: while `step`
      reports progress the generator is still there, still a backtracker, and its
      invariant holds; once it reports completion the generator is gone and the
      maze is perfect. */
  lemma DfsStepsKeepMaze(g: Board, w: nat, h: nat, stack: seq<Coord>, steps: nat, rolls: nat -> nat, k: nat, root: Coord)
    requires DfsInv(g, w, h, stack, root)
    ensures var r := Steps(g, w, h, Some(DfsGenerator(stack)), steps, rolls, k);
      && (r.2 ==> r.1.Some? && r.1.value.DfsGenerator? && DfsInv(r.0, w, h, r.1.value.stack, root))
      && (!r.2 ==> r.1 == None && PerfectMaze(r.0, w, h, root))
  {
    var inv := (g': Board, s': seq<Coord>) => DfsInv(g', w, h, s', root);
    var done := (g': Board) => PerfectMaze(g', w, h, root);
    forall g': Board, s': seq<Coord>, roll: nat | inv(g', s')
      ensures var a := DfsMove(w, h)(g', s', roll); (a.2 ==> inv(a.0, a.1)) && (!a.2 ==> done(a.0))
    {
      DfsAdvanceKeepsInv(g', w, h, s', root, roll);
    }
    RunKeeps(DfsMove(w, h), g, stack, steps, rolls, k, inv, done);
  }

  /** The same for a running Prim's generator. */
  lemma PrimsStepsKeepMaze(g: Board, w: nat, h: nat, walls: seq<Entry>, steps: nat, rolls: nat -> nat, k: nat, root: Coord)
    requires PrimsInv(g, w, h, walls, root)
    ensures var r := Steps(g, w, h, Some(PrimsGenerator(walls)), steps, rolls, k);
      && (r.2 ==> r.1.Some? && r.1.value.PrimsGenerator? && PrimsInv(r.0, w, h, r.1.value.walls, root))
      && (!r.2 ==> r.1 == None && PerfectMaze(r.0, w, h, root))
  {
    var inv := (g': Board, s': seq<Entry>) => PrimsInv(g', w, h, s', root);
    var done := (g': Board) => PerfectMaze(g', w, h, root);
    forall g': Board, s': seq<Entry>, roll: nat | inv(g', s')
      ensures var a := PrimsMove(w, h)(g', s', roll); (a.2 ==> inv(a.0, a.1)) && (!a.2 ==> done(a.0))
    {
      PrimsAdvanceKeepsInv(g', w, h, s', root, roll);
    }
    RunKeeps(PrimsMove(w, h), g, walls, steps, rolls, k, inv, done);
  }

  // ---------------------------------------------------------------------
  // How long generation takes

  /** Micro-steps the backtracker still needs: each unvisited cell is carved to
      once and popped once, each stacked cell popped once. */
  function DfsBudget(g: Board, stack: seq<Coord>): nat {
    2 * UnvisitedCount(g) + |stack|
  }

  /** Every DFS micro-step on a non-empty stack spends exactly one unit. */
  lemma DfsStepBudget(g: Board, w: nat, h: nat, stack: seq<Coord>, roll: nat)
    requires Shaped(g, w, h) && StackWithin(stack, w, h) && stack != []
    ensures var r := DfsStepSpec(g, w, h, stack, roll);
      r.2 && DfsBudget(r.0, r.1) + 1 == DfsBudget(g, stack)
  {
    var g1 := MarkInStack(ClearFlags(g), w, h, stack);
    FlagsShowWorkingSet(g, w, h, stack);
    LayoutCounts(g, g1, w, h);
    var top := stack[|stack| - 1];
    DfsIterationCases(g1, w, h, stack, roll);
    if !Closed(g1, w, h, top.0, top.1) {
      var d: nat :| d < 4 && HasNeighbor(w, h, top.0, top.1, d)
        && var n := Neighbor(top.0, top.1, d);
        && !g1[n.1][n.0].visited
        && DfsIteration(g1, w, h, stack, roll).0 == Link(g1, w, h, top.0, top.1, d)
        && DfsIteration(g1, w, h, stack, roll).1 == stack + [n];
      LinkCounts(g1, w, h, top.0, top.1, d);
    }
  }

  lemma AllVisitedNoneLeft(g: Board, w: nat, h: nat)
    requires Shaped(g, w, h) && AllVisited(g, w, h)
    ensures UnvisitedCount(g) == 0
  {
    GridSumConstant(g, w, h, UnvisitedScore, 0);
  }

  /** A run whose every micro-step from a state in `inv` stays in `inv`, spends
      exactly one unit of the measure `m` when it reports progress, and reports
      completion only at measure 0, reports progress exactly while `steps` is
      at most the measure. */
  lemma {:induction false} RunExact<S>(move: (Board, S, nat) -> (Board, S, bool), g: Board, s: S, steps: nat, rolls: nat -> nat, k: nat,
                                       inv: (Board, S) -> bool, m: (Board, S) -> nat)
    requires inv(g, s)
    requires forall g': Board, s': S, roll: nat | inv(g', s') ::
      var a := move(g', s', roll);
      && (a.2 ==> inv(a.0, a.1) && m(a.0, a.1) + 1 == m(g', s'))
      && (!a.2 ==> m(g', s') == 0)
    ensures Run(move, g, s, steps, rolls, k).2 <==> steps <= m(g, s)
    decreases steps
  {
    if steps > 0 {
      var a := move(g, s, rolls(k));
      if a.2 {
        RunExact(move, a.0, a.1, steps - 1, rolls, k + 1, inv, m);
      }
    }
  }

  /** Under the backtracker's invariant, `step(n)` reports progress exactly when
      `n` is at most the remaining budget: the stack empties after precisely that
      many micro-steps, and the next one reports completion. */
  lemma DfsStepsExact(g: Board, w: nat, h: nat, stack: seq<Coord>, steps: nat, rolls: nat -> nat, k: nat, root: Coord)
    requires DfsInv(g, w, h, stack, root)
    ensures Steps(g, w, h, Some(DfsGenerator(stack)), steps, rolls, k).2 <==> steps <= DfsBudget(g, stack)
  {
    var inv := (g': Board, s': seq<Coord>) => DfsInv(g', w, h, s', root);
    var m := (g': Board, s': seq<Coord>) => DfsBudget(g', s');
    forall g': Board, s': seq<Coord>, roll: nat | inv(g', s')
      ensures var a := DfsMove(w, h)(g', s', roll);
        && (a.2 ==> inv(a.0, a.1) && m(a.0, a.1) + 1 == m(g', s'))
        && (!a.2 ==> m(g', s') == 0)
    {
      DfsAdvanceKeepsInv(g', w, h, s', root, roll);
      if s' == [] {
        EmptyStackIsPerfect(g', w, h, root);
        AllVisitedNoneLeft(g', w, h);
      } else {
        DfsStepBudget(g', w, h, s', roll);
      }
    }
    RunExact(DfsMove(w, h), g, stack, steps, rolls, k, inv, m);
  }

  /** Micro-steps Prim's may still need: each unvisited cell is carved to once,
      adding at most four entries, and every entry is removed once. */
  function PrimsBudget(g: Board, walls: seq<Entry>): nat {
    5 * UnvisitedCount(g) + |walls|
  }

  /** Every Prim's micro-step on a non-empty frontier spends at least one unit. */
  lemma PrimsStepBudget(g: Board, w: nat, h: nat, walls: seq<Entry>, roll: nat)
    requires Shaped(g, w, h) && EntriesWithin(walls, w, h) && walls != []
    ensures var r := PrimsStepSpec(g, w, h, walls, roll);
      r.2 && PrimsBudget(r.0, r.1) < PrimsBudget(g, walls)
  {
    TargetsWithin(walls, w, h);
    var g1 := MarkInStack(ClearFlags(g), w, h, Targets(walls));
    FlagsShowWorkingSet(g, w, h, Targets(walls));
    LayoutCounts(g, g1, w, h);
    PrimsIterationProgress(g1, w, h, walls, roll % |walls|);
  }

  /** A run whose every micro-step that reports progress lowers the measure `m`
      reports completion once `steps` exceeds the measure. */
  lemma {:induction false} RunEnds<S>(move: (Board, S, nat) -> (Board, S, bool), g: Board, s: S, steps: nat, rolls: nat -> nat, k: nat,
                                      m: (Board, S) -> nat)
    requires steps > m(g, s)
    requires forall g': Board, s': S, roll: nat ::
      var a := move(g', s', roll); a.2 ==> m(a.0, a.1) < m(g', s')
    ensures !Run(move, g, s, steps, rolls, k).2
    decreases steps
  {
    var a := move(g, s, rolls(k));
    if a.2 {
      RunEnds(move, a.0, a.1, steps - 1, rolls, k + 1, m);
    }
  }

  /** `step(n)` with `n` above the budget always ends Prim's generation. */
  lemma PrimsStepsFinish(g: Board, w: nat, h: nat, walls: seq<Entry>, steps: nat, rolls: nat -> nat, k: nat)
    requires Shaped(g, w, h) && EntriesWithin(walls, w, h)
    requires steps > PrimsBudget(g, walls)
    ensures !Steps(g, w, h, Some(PrimsGenerator(walls)), steps, rolls, k).2
  {
    var m := (g': Board, s': seq<Entry>) => PrimsBudget(g', s');
    forall g': Board, s': seq<Entry>, roll: nat
      ensures var a := PrimsMove(w, h)(g', s', roll); a.2 ==> m(a.0, a.1) < m(g', s')
    {
      if Shaped(g', w, h) && EntriesWithin(s', w, h) && s' != [] {
        PrimsStepBudget(g', w, h, s', roll);
      }
    }
    RunEnds(PrimsMove(w, h), g, walls, steps, rolls, k, m);
  }

  // ---------------------------------------------------------------------
  // From a fresh maze

  lemma StartUnvisited(w: nat, h: nat, sx: nat, sy: nat)
    requires sx < w && sy < h
    ensures UnvisitedCount(MarkVisited(NewGrid(w, h), sx, sy)) + 1 == w * h
  {
    var g := NewGrid(w, h);
    GridSumConstant(g, w, h, UnvisitedScore, 1);
    SetNodeSum(g, sx, sy, g[sy][sx].(visited := true), UnvisitedScore);
  }

  /** With one of `w * h` cells visited, `c` units per unvisited cell plus `c`
      make `c * w * h`. */
  lemma ScaledArea(u: nat, w: nat, h: nat, c: nat)
    requires u + 1 == w * h
    ensures c * u + c == c * w * h
  {
    calc {
      c * w * h;
      c * (w * h);
      c * (u + 1);
    }
  }

  /** `init_dfs` on a fresh maze starts the backtracker in its invariant. */
  lemma InitDfsStartsMaze(w: nat, h: nat, sx: nat, sy: nat)
    requires sx < w && sy < h
    ensures DfsInv(MarkVisited(NewGrid(w, h), sx, sy), w, h, [(sx, sy)], (sx, sy))
  {
    StartIsPerfectSoFar(w, h, sx, sy);
    StartCells(w, h, sx, sy);
  }

  /** `init_prims` on a fresh maze starts Prim's in its invariant. */
  lemma InitPrimsStartsMaze(w: nat, h: nat, sx: nat, sy: nat)
    requires sx < w && sy < h
    ensures PrimsInv(MarkVisited(NewGrid(w, h), sx, sy), w, h, InitialFrontier(w, h, sx, sy), (sx, sy))
  {
    StartSatisfiesPrimsInv(w, h, sx, sy, InitialFrontier(w, h, sx, sy));
  }

  /** The backtracker from any state in its invariant: `step(n)` reports progress
      exactly while n is within the budget, and reports completion only with a
      perfect maze. */
  lemma DfsStepsFrom(g: Board, w: nat, h: nat, stack: seq<Coord>, steps: nat, rolls: nat -> nat, root: Coord)
    requires DfsInv(g, w, h, stack, root)
    ensures var r := Steps(g, w, h, Some(DfsGenerator(stack)), steps, rolls, 0);
      && (r.2 <==> steps <= DfsBudget(g, stack))
      && (!r.2 ==> r.1 == None && PerfectMaze(r.0, w, h, root))
  {
    DfsStepsExact(g, w, h, stack, steps, rolls, 0, root);
    DfsStepsKeepMaze(g, w, h, stack, steps, rolls, 0, root);
  }

  /** After `init_dfs` on a fresh w-by-h maze, `step(n)` reports progress exactly
      when n <= 2wh - 1, and once it reports completion the maze is perfect. */
  lemma DfsGenerationLength(w: nat, h: nat, sx: nat, sy: nat, steps: nat, rolls: nat -> nat)
    requires sx < w && sy < h
    ensures var g := MarkVisited(NewGrid(w, h), sx, sy);
      var r := Steps(g, w, h, Some(DfsGenerator([(sx, sy)])), steps, rolls, 0);
      && (r.2 <==> steps + 1 <= 2 * w * h)
      && (!r.2 ==> r.1 == None && PerfectMaze(r.0, w, h, (sx, sy)))
  {
    var g := MarkVisited(NewGrid(w, h), sx, sy);
    InitDfsStartsMaze(w, h, sx, sy);
    StartUnvisited(w, h, sx, sy);
    ScaledArea(UnvisitedCount(g), w, h, 2);
    assert DfsBudget(g, [(sx, sy)]) + 1 == 2 * w * h;
    DfsStepsFrom(g, w, h, [(sx, sy)], steps, rolls, (sx, sy));
  }

  /** Prim's from any state in its invariant: `step(n)` with n above the budget
      reports completion, and completion comes only with a perfect maze. */
  lemma PrimsStepsFrom(g: Board, w: nat, h: nat, walls: seq<Entry>, steps: nat, rolls: nat -> nat, root: Coord)
    requires PrimsInv(g, w, h, walls, root)
    ensures var r := Steps(g, w, h, Some(PrimsGenerator(walls)), steps, rolls, 0);
      && (steps > PrimsBudget(g, walls) ==> !r.2)
      && (!r.2 ==> r.1 == None && PerfectMaze(r.0, w, h, root))
  {
    if steps > PrimsBudget(g, walls) {
      PrimsStepsFinish(g, w, h, walls, steps, rolls, 0);
    }
    PrimsStepsKeepMaze(g, w, h, walls, steps, rolls, 0, root);
  }

  /** After `init_prims` on a fresh w-by-h maze, `step(n)` with n >= 5wh reports
      completion, and whenever it does the maze is perfect. */
  lemma PrimsGenerationFinishes(w: nat, h: nat, sx: nat, sy: nat, steps: nat, rolls: nat -> nat)
    requires sx < w && sy < h
    ensures var g := MarkVisited(NewGrid(w, h), sx, sy);
      var r := Steps(g, w, h, Some(PrimsGenerator(InitialFrontier(w, h, sx, sy))), steps, rolls, 0);
      && (steps >= 5 * w * h ==> !r.2)
      && (!r.2 ==> r.1 == None && PerfectMaze(r.0, w, h, (sx, sy)))
  {
    var g := MarkVisited(NewGrid(w, h), sx, sy);
    InitPrimsStartsMaze(w, h, sx, sy);
    StartUnvisited(w, h, sx, sy);
    ScaledArea(UnvisitedCount(g), w, h, 5);
    assert PrimsBudget(g, InitialFrontier(w, h, sx, sy)) < 5 * w * h;
    PrimsStepsFrom(g, w, h, InitialFrontier(w, h, sx, sy), steps, rolls, (sx, sy));
  }

  // ---------------------------------------------------------------------
  // The maze object

  class Maze {
    const width: nat
    const height: nat
    var grid: Board
    var generator: Option<MazeGenerator>

    ghost predicate Valid()
      reads this
    {
      Consistent(grid, generator, width, height)
    }

    /** `Maze::new`: every cell unvisited and walled in, no generator. */
    constructor (width: nat, height: nat)
      ensures this.width == width && this.height == height
      ensures grid == NewGrid(width, height) && generator == None
      ensures Valid()
    {
      this.width := width;
      this.height := height;
      grid := NewGrid(width, height);
      generator := None;
    }

    /** `init_dfs`, with the start cell drawn by the caller. */
    method InitDfs(startX: nat, startY: nat)
      requires Valid() && startX < width && startY < height
      modifies this
      ensures Valid()
      ensures grid == MarkVisited(old(grid), startX, startY)
      ensures generator == Some(DfsGenerator([(startX, startY)]))
    {
      grid := MarkVisited(grid, startX, startY);
      generator := Some(DfsGenerator([(startX, startY)]));
    }

    /** `init_prims`, with the start cell drawn by the caller. The four pushes are
        spelled out as the method makes them; `InitialFrontier` is the same list
        as a value, which the lemmas reason about. */
    method InitPrims(startX: nat, startY: nat)
      requires Valid() && startX < width && startY < height
      modifies this
      ensures Valid()
      ensures grid == MarkVisited(old(grid), startX, startY)
      ensures generator == Some(PrimsGenerator(InitialFrontier(width, height, startX, startY)))
    {
      grid := MarkVisited(grid, startX, startY);
      var left := if startX > 0 then [(startX, startY, startX - 1, startY)] else [];
      var right := if startX + 1 < width then [(startX, startY, startX + 1, startY)] else [];
      var top := if startY > 0 then [(startX, startY, startX, startY - 1)] else [];
      var bottom := if startY + 1 < height then [(startX, startY, startX, startY + 1)] else [];
      var walls := left + right + top + bottom;
      generator := Some(PrimsGenerator(walls));
    }

    /** `init_kruskals`: a placeholder that leaves no generator. */
    method InitKruskals()
      requires Valid()
      modifies this
      ensures Valid()
      ensures grid == old(grid) && generator == None
    {
      generator := None;
    }

    /** Lower both display flags on every node. */
    method ResetFlags()
      requires Shaped(grid, width, height)
      modifies this`grid
      ensures grid == ClearFlags(old(grid))
    {
      ghost var g0: Board := grid;
      var y := 0;
      while y < height
        invariant 0 <= y <= height
        invariant Shaped(grid, width, height)
        invariant forall j, i | 0 <= j < y && 0 <= i < width :: grid[j][i] == g0[j][i].(isCurrent := false, inStack := false)
        invariant forall j | y <= j < height :: grid[j] == g0[j]
      {
        var x := 0;
        while x < width
          invariant 0 <= x <= width
          invariant Shaped(grid, width, height)
          invariant forall j, i | 0 <= j < y && 0 <= i < width :: grid[j][i] == g0[j][i].(isCurrent := false, inStack := false)
          invariant forall i | 0 <= i < x :: grid[y][i] == g0[y][i].(isCurrent := false, inStack := false)
          invariant forall i | x <= i < width :: grid[y][i] == g0[y][i]
          invariant forall j | y < j < height :: grid[j] == g0[j]
        {
          grid := SetNode(grid, x, y, grid[y][x].(isCurrent := false, inStack := false));
          x := x + 1;
        }
        y := y + 1;
      }
      assert forall j | 0 <= j < height :: grid[j] == ClearFlags(g0)[j];
    }

    /** Raise `inStack` on each listed cell. */
    method MarkCells(cells: seq<Coord>)
      requires Shaped(grid, width, height) && StackWithin(cells, width, height)
      modifies this`grid
      ensures grid == MarkInStack(old(grid), width, height, cells)
    {
      ghost var g0: Board := grid;
      for i := 0 to |cells|
        invariant Shaped(grid, width, height)
        invariant grid == MarkInStack(g0, width, height, cells[..i])
      {
        var (x, y) := cells[i];
        assert cells[..i + 1][..i] == cells[..i];
        grid := SetNode(grid, x, y, grid[y][x].(inStack := true));
      }
      assert cells[..|cells|] == cells;
    }

    /** `dfs_step`: returns whether a pass was made, and the stack after it. */
    method DfsStep(stack: seq<Coord>, roll: nat) returns (more: bool, stack': seq<Coord>)
      requires Shaped(grid, width, height) && StackWithin(stack, width, height)
      modifies this`grid
      ensures (grid, stack', more) == DfsStepSpec(old(grid), width, height, stack, roll)
    {
      ResetFlags();
      MarkCells(stack);
      if stack == [] {
        return false, stack;
      }
      ghost var g1 := grid;
      var (x, y) := stack[|stack| - 1];
      stack' := stack[..|stack| - 1];
      var neighbors := UnvisitedNeighbors(grid, width, height, x, y);
      if neighbors != [] {
        var (nx, ny, currentWall, neighborWall) := neighbors[roll % |neighbors|];
        grid := ClearWall(grid, x, y, currentWall);
        grid := ClearWall(grid, nx, ny, neighborWall);
        grid := MarkVisited(grid, nx, ny);
        stack' := stack' + [(x, y), (nx, ny)];
      }
      assert (grid, stack') == DfsIteration(g1, width, height, stack, roll);
      more := true;
    }

    /** `prims_step`: returns whether a pass was made, and the frontier after it. */
    method PrimsStep(walls: seq<Entry>, roll: nat) returns (more: bool, walls': seq<Entry>)
      requires Shaped(grid, width, height) && EntriesWithin(walls, width, height)
      modifies this`grid
      ensures (grid, walls', more) == PrimsStepSpec(old(grid), width, height, walls, roll)
    {
      ResetFlags();
      TargetsWithin(walls, width, height);
      MarkCells(Targets(walls));
      if walls == [] {
        return false, walls;
      }
      ghost var g1 := grid;
      var index := roll % |walls|;
      var (x1, y1, x2, y2) := walls[index];
      walls' := RemoveAt(walls, index);
      if !grid[y2][x2].visited {
        grid := MarkVisited(grid, x2, y2);
        if x1 == x2 {
          if y1 > y2 {
            grid := ClearWall(grid, x1, y1, 0);
            grid := ClearWall(grid, x2, y2, 2);
          } else {
            grid := ClearWall(grid, x1, y1, 2);
            grid := ClearWall(grid, x2, y2, 0);
          }
        } else {
          if x1 > x2 {
            grid := ClearWall(grid, x1, y1, 3);
            grid := ClearWall(grid, x2, y2, 1);
          } else {
            grid := ClearWall(grid, x1, y1, 1);
            grid := ClearWall(grid, x2, y2, 3);
          }
        }
        assert grid == ClearBetween(MarkVisited(g1, x2, y2), x1, y1, x2, y2);
        var added := NeighborEntries(x2, y2);
        walls' := walls' + added;
      }
      more := true;
    }

    /** The entries pushed after carving to (x2, y2): one to each in-bounds
        neighbour not yet visited, left, right, top, bottom. The four pushes are
        spelled out against the maze's own grid, as `prims_step` makes them;
        `NewEntries` is the same list as a value, which the lemmas reason about. */
    method NeighborEntries(x2: nat, y2: nat) returns (added: seq<Entry>)
      requires Shaped(grid, width, height) && x2 < width && y2 < height
      ensures added == NewEntries(grid, width, height, x2, y2)
    {
      var left := if x2 > 0 && !grid[y2][x2 - 1].visited then [(x2, y2, x2 - 1, y2)] else [];
      var right := if x2 + 1 < width && !grid[y2][x2 + 1].visited then [(x2, y2, x2 + 1, y2)] else [];
      var top := if y2 > 0 && !grid[y2 - 1][x2].visited then [(x2, y2, x2, y2 - 1)] else [];
      var bottom := if y2 + 1 < height && !grid[y2 + 1][x2].visited then [(x2, y2, x2, y2 + 1)] else [];
      added := left + right + top + bottom;
    }

    /** The body of `step`'s loop: one micro-step of the generator taken out of
        the maze. */
    method AdvanceGenerator(gen: MazeGenerator, roll: nat) returns (more: bool, next: MazeGenerator)
      requires Shaped(grid, width, height) && GeneratorWithin(gen, width, height)
      modifies this`grid
      ensures (grid, next, more) == Advance(old(grid), width, height, gen, roll)
    {
      match gen {
        case DfsGenerator(stack) =>
          var stack';
          more, stack' := DfsStep(stack, roll);
          next := DfsGenerator(stack');
        case PrimsGenerator(walls) =>
          var walls';
          more, walls' := PrimsStep(walls, roll);
          next := PrimsGenerator(walls');
      }
    }

    /** What `step(n)` would do from the current state, micro-step k drawing
        `rolls(k)`. */
    ghost function Outcome(n: nat, rolls: nat -> nat, k: nat): (Board, Option<MazeGenerator>, bool)
      reads this
      requires Valid()
    {
      Steps(grid, width, height, generator, n, rolls, k)
    }

    /** One pass of `step`'s loop, micro-step k of n remaining: with no
        generator, report that nothing runs; otherwise advance it once with
        `rolls(k)`, dropping it when it reports completion. What is left equals
        the rest of the run. */
    method StepOnce(ghost n: nat, rolls: nat -> nat, k: nat) returns (more: bool)
      requires Valid() && n > 0
      modifies this
      ensures Valid()
      ensures more ==> Outcome(n - 1, rolls, k + 1) == old(Outcome(n, rolls, k))
      ensures !more ==> generator == None && (grid, generator, false) == old(Outcome(n, rolls, k))
      ensures old(generator).Some? ==>
        var a := Advance(old(grid), width, height, old(generator).value, rolls(k));
        grid == a.0 && more == a.2 && generator == (if a.2 then Some(a.1) else None)
      ensures old(generator) == None ==> !more && grid == old(grid) && generator == None
    {
      match generator {
        case None =>
          more := false;
        case Some(gen) =>
          StepsUnfold(grid, width, height, gen, n, rolls, k);
          var next;
          more, next := AdvanceGenerator(gen, rolls(k));
          generator := if more then Some(next) else None;
      }
    }

    /** `step(steps)`: run up to `steps` micro-steps, micro-step k drawing
        `rolls(k)`; false once generation is over (or there is nothing to run). */
    method Step(steps: nat, rolls: nat -> nat) returns (inProgress: bool)
      requires Valid()
      modifies this
      ensures Valid()
      ensures (grid, generator, inProgress) == Steps(old(grid), width, height, old(generator), steps, rolls, 0)
    {
      ghost var total := Outcome(steps, rolls, 0);
      inProgress := true;
      var i: nat := 0;
      ghost var rest: nat := steps;
      while i < steps
        invariant i <= steps && rest == steps - i
        invariant Valid() && Outcome(rest, rolls, i) == total
      {
        var more := StepOnce(rest, rolls, i);
        if !more {
          inProgress := false;
          break;
        }
        i := i + 1;
        rest := rest - 1;
      }
    }
  }
}
