# Maze carving in pathfinding_simulation, modelled in Dafny

The repository generates perfect mazes on a `width × height` grid of nodes. Each node has
four walls, indexed 0 = top, 1 = right, 2 = bottom, 3 = left, and a `visited` flag. It has
two generators:

- a recursive backtracker (depth-first search over a stack of cells);
- randomised Prim's (a frontier of candidate walls, one removed at random per pass).

They exist in two versions:

- **Interactive engine** (`pathfinding_simulation_gui_version/src/app/maze/mod.rs`).
  `init_dfs` or `init_prims` seed a start cell. `step(n)` then advances the chosen
  algorithm by up to `n` micro-steps (`dfs_step` or `prims_step`), so the GUI can draw
  every intermediate state. Before each micro-step the display flags `is_current` and
  `in_stack` are lowered everywhere. Then `in_stack` is raised on the working set: the
  DFS stack, or the far cells of the Prim's frontier.
- **Batch version** (`pathfinding_simulation/src/maze/mod.rs`). `dfs_maze` and
  `prims_maze` run the same loops to completion in one call.

The model is six modules, one per file:

- `Grid` (`grid.dfy`): nodes, the grid as `seq<seq<Node>>` indexed `g[y][x]`, `Maze::new`,
  wall directions and their opposites, point updates, and counts of visited cells and
  cleared walls.
- `Carving` (`carving.dfy`): the maze invariant. The visited cells and the cleared wall
  pairs form a tree containing the start cell. Wall pairs agree, walls are cleared only
  on visited cells, there is one passage fewer than visited cells, and every visited cell
  is reachable from the start. One carve keeps the invariant. A finished maze is a
  spanning tree of the whole grid. A visited cell with all four walls makes a perfect
  maze impossible.
- `Dfs` (`dfs.dfy`): the backtracker's pass, its loop, its invariant, termination, and the
  result (a perfect maze).
- `Prims` (`prims.dfy`): the same for Prim's. The frontier may hold stale entries, whose
  far cell is already visited.
- `Engine` (`engine.dfy`): the interactive engine.
  - Pure functions give one micro-step (`DfsStepSpec`, `PrimsStepSpec`) and `step(n)`
    (`Steps`, built on a generic `Run`).
  - A `Maze` class has the fields `width`, `height`, `grid` and `generator`. Its methods
    update those fields in place, with loops, and are proved equal to the functions.
  - Lemmas prove what `step` keeps, when it reports completion, and that completion
    always comes with a perfect maze.
- `Batch` (`batch.dfy`): the batch version as a `Maze` class whose methods run the
  `while` loops. Each method is proved equal to the run function of its algorithm, and
  the maze it leaves is characterised.

Randomness is passed in as parameters:
- The start cell is a parameter (engine) or two draws reduced modulo the dimensions
  (batch).
- The k-th random choice of a run is `rolls(k)`, reduced modulo the number of
  candidates, so every property holds for every sequence of draws.
- The batch shuffle takes its own `draws`.

## Model

| member | source | states |
|---|---|---|
| Grid.NewGrid | pathfinding_simulation_gui_version/src/app/maze/mod.rs:25-39 | `height` rows of `width` nodes; the node at `g[y][x]` has coordinates (x, y), is unvisited, has all four walls and both display flags lowered |
| Grid.NeighborBack | pathfinding_simulation_gui_version/src/app/maze/mod.rs:147-158 | the neighbour behind wall d of an in-grid cell is in the grid, and its opposite wall (3/1, 1/3, 0/2, 2/0) leads back to the cell |
| Engine.Maze.constructor | pathfinding_simulation_gui_version/src/app/maze/mod.rs:25-47 | `Maze::new` keeps the dimensions, builds the fresh grid and starts with no generator |
| Engine.Maze.InitDfs | pathfinding_simulation_gui_version/src/app/maze/mod.rs:50-59 | only the start cell becomes visited; the generator is the backtracker with stack `[start]` |
| Engine.Maze.InitPrims | pathfinding_simulation_gui_version/src/app/maze/mod.rs:61-83 | only the start cell becomes visited; the generator is Prim's with the initial frontier, pushed left, right, top, bottom |
| Prims.InitialFrontier | pathfinding_simulation_gui_version/src/app/maze/mod.rs:67-80 | at most four entries, all leaving the start for an adjacent in-grid cell, one for every in-grid neighbour of the start, and no entry twice, so exactly one per neighbour |
| Engine.Maze.InitKruskals | pathfinding_simulation_gui_version/src/app/maze/mod.rs:86-90 | the placeholder leaves the grid alone and no generator, and the maze stays consistent |
| Engine.FlagsShowWorkingSet | pathfinding_simulation_gui_version/src/app/maze/mod.rs:130-141 | after the flag pass no node is current, `in_stack` is raised exactly on the listed cells, and visits, walls and coordinates are untouched |
| Engine.Maze.ResetFlags | pathfinding_simulation_gui_version/src/app/maze/mod.rs:131-136 | the nested loop lowers both flags on every node and changes nothing else |
| Engine.Maze.MarkCells | pathfinding_simulation_gui_version/src/app/maze/mod.rs:139-141 | the loop over the working set raises `in_stack` on each listed cell |
| Engine.ClearFlags | pathfinding_simulation_gui_version/src/app/maze/mod.rs:131-136 | lowering the flags keeps every row's length; `FlagsShowWorkingSet` states that no flag stays raised and nothing else changes |
| Engine.MarkInStack | pathfinding_simulation_gui_version/src/app/maze/mod.rs:139-141 | raising `in_stack` on listed in-grid cells keeps the grid's shape; `MarkInStackAt` states which nodes change |
| Dfs.UnvisitedNeighbors | pathfinding_simulation_gui_version/src/app/maze/mod.rs:145-158 | every candidate is an in-grid, unvisited neighbour with the wall pair leading to it, and every unvisited in-grid neighbour is a candidate |
| Dfs.UnvisitedNeighborsDistinct | pathfinding_simulation_gui_version/src/app/maze/mod.rs:145-158 | no candidate is listed twice, so each unvisited neighbour is a candidate exactly once |
| Dfs.NoCandidateIffClosed | pathfinding_simulation_gui_version/src/app/maze/mod.rs:145-160 | there is no candidate exactly when every in-grid neighbour is visited |
| Dfs.DfsIteration | pathfinding_simulation_gui_version/src/app/maze/mod.rs:143-170 | one pass of the popping loop, shared by both versions (also pathfinding_simulation/src/maze/mod.rs:55-80); it keeps the grid's shape and the stack inside the grid; `DfsIterationCases` states what a pass does |
| Dfs.DfsIterationCases | pathfinding_simulation_gui_version/src/app/maze/mod.rs:143-170 | a pass pops one cell; with no candidate the grid is unchanged and the stack one shorter; otherwise exactly one wall pair to an unvisited neighbour is cleared, it becomes visited, and it is pushed above the popped cell |
| Dfs.DfsEveryNeighborReachable | pathfinding_simulation_gui_version/src/app/maze/mod.rs:160-169 | every unvisited neighbour of the popped cell is chosen for some draw |
| Carving.Link | pathfinding_simulation_gui_version/src/app/maze/mod.rs:164-166 | the carve keeps the grid's shape; `LinkAt` states the resulting nodes |
| Carving.LinkAt | pathfinding_simulation_gui_version/src/app/maze/mod.rs:164-166 | a carve clears wall d of the cell and the opposite wall of its neighbour and marks the neighbour visited; no other node changes |
| Carving.LinkCellAt | pathfinding_simulation_gui_version/src/app/maze/mod.rs:164-166 | the same, for any one cell |
| Carving.LinkVisits | pathfinding_simulation_gui_version/src/app/maze/mod.rs:166 | a carve visits exactly one more cell, the neighbour |
| Carving.LinkCounts | pathfinding_simulation_gui_version/src/app/maze/mod.rs:164-166 | carving to an unvisited neighbour adds one visited cell and removes one unvisited cell |
| Carving.LinkPassages | pathfinding_simulation_gui_version/src/app/maze/mod.rs:164-165 | clearing an intact pair adds exactly one passage |
| Carving.LinkFromIntact | pathfinding_simulation_gui_version/src/app/maze/mod.rs:147-165 | under the invariant, the pair towards an unvisited neighbour is still intact on both sides |
| Carving.LinkKeepsAgreeing | pathfinding_simulation_gui_version/src/app/maze/mod.rs:164-165 | a carve keeps both walls of every pair equal |
| Carving.LinkAgreesAt | pathfinding_simulation_gui_version/src/app/maze/mod.rs:164-165 | the same, for one wall pair |
| Carving.LinkKeepsOpenOnlyVisited | pathfinding_simulation_gui_version/src/app/maze/mod.rs:164-166 | a carve from a visited cell clears walls only on visited cells, never restores a wall and never unvisits a cell |
| Carving.LinkKeepsSpanned | pathfinding_simulation_gui_version/src/app/maze/mod.rs:164-166 | after a carve every visited cell is still reachable from the start through passages |
| Carving.LinkReachesNewCell | pathfinding_simulation_gui_version/src/app/maze/mod.rs:164-166 | the new cell is reachable through the new passage |
| Carving.PathKept | pathfinding_simulation_gui_version/src/app/maze/mod.rs:164-165 | clearing walls keeps every path a path |
| Carving.ReachableKept | pathfinding_simulation_gui_version/src/app/maze/mod.rs:164-165 | clearing walls keeps reachability |
| Carving.PathExtend | pathfinding_simulation_gui_version/src/app/maze/mod.rs:164-165 | a path extended through a passage is a path |
| Carving.LinkKeepsPerfectSoFar | pathfinding_simulation_gui_version/src/app/maze/mod.rs:160-170 | carving from a visited cell to an unvisited neighbour keeps the visited part a tree rooted at the start; walls are only cleared, visits only added |
| Dfs.DfsIterationProgress | pathfinding_simulation_gui_version/src/app/maze/mod.rs:143-170 | a pass visits a new cell, or shortens the stack with the visited cells unchanged |
| Dfs.ClosedKept | pathfinding_simulation_gui_version/src/app/maze/mod.rs:166 | a cell whose neighbours are all visited stays so while visits are only added |
| Dfs.BacktrackKeepsInv | pathfinding_simulation_gui_version/src/app/maze/mod.rs:143-160 | popping a cell with no unvisited neighbour keeps the backtracker's invariant |
| Dfs.CarveKeepsInv | pathfinding_simulation_gui_version/src/app/maze/mod.rs:160-170 | carving from the popped cell and pushing it back under the neighbour keeps the invariant |
| Dfs.DfsIterationKeepsInv | pathfinding_simulation_gui_version/src/app/maze/mod.rs:143-170 | every pass, whatever the draw, keeps the invariant; walls are only cleared and visits only added |
| Dfs.EmptyStackIsPerfect | pathfinding_simulation_gui_version/src/app/maze/mod.rs:172-173 | when the stack is empty the maze is perfect: every cell visited and a tree rooted at the start |
| Dfs.DfsRun | pathfinding_simulation/src/maze/mod.rs:55-82 | the loop run until the stack is empty keeps the grid's shape; `DfsRunPerfect` states the maze it leaves |
| Carving.ClosedMeansAllVisited | pathfinding_simulation_gui_version/src/app/maze/mod.rs:172-173 | if one cell is visited and no visited cell has an unvisited neighbour, every cell is visited |
| Carving.RowWalk | pathfinding_simulation_gui_version/src/app/maze/mod.rs:147-152 | under that closure a visited cell's whole row is visited |
| Carving.ColumnWalk | pathfinding_simulation_gui_version/src/app/maze/mod.rs:153-158 | and its whole column |
| Carving.PerfectMazeSpans | pathfinding_simulation_gui_version/src/app/maze/mod.rs:160-170 | a finished maze has exactly width * height - 1 passages and reaches every cell from the start |
| Carving.StartCells | pathfinding_simulation_gui_version/src/app/maze/mod.rs:52-54 | after marking the start on a fresh grid, only the start is visited and every wall is present |
| Carving.StartCounts | pathfinding_simulation_gui_version/src/app/maze/mod.rs:52-54 | the fresh grid with its start visited has no passage and one visited cell |
| Carving.StartIsPerfectSoFar | pathfinding_simulation_gui_version/src/app/maze/mod.rs:50-59 | the start alone is a one-cell tree |
| Dfs.DfsRunPerfect | pathfinding_simulation/src/maze/mod.rs:55-82 | the loop run from any state in the invariant ends with a perfect maze |
| Dfs.DfsFromStartIsPerfect | pathfinding_simulation/src/maze/mod.rs:50-82 | started from one visited cell that is also on the stack, for every sequence of draws, the backtracker builds a perfect maze rooted there |
| Prims.DirToNeighbor | pathfinding_simulation_gui_version/src/app/maze/mod.rs:197-213 | the coordinate comparison picks exactly the wall facing each neighbour |
| Prims.ClearBetween | pathfinding_simulation_gui_version/src/app/maze/mod.rs:197-213 | clearing by coordinate comparison keeps the grid's shape; `ClearBetweenKeepsVisited` and `PrimsCarveIsLink` state what it clears |
| Prims.PrimsCarveIsLink | pathfinding_simulation_gui_version/src/app/maze/mod.rs:194-213 | marking the far cell visited and clearing by coordinate comparison is the same carve as the backtracker's, through the wall facing the far cell |
| Prims.NewEntries | pathfinding_simulation_gui_version/src/app/maze/mod.rs:215-227 | at most four entries are pushed; `NewEntriesExact` states which |
| Prims.NewEntriesExact | pathfinding_simulation_gui_version/src/app/maze/mod.rs:215-227 | the pushed entries all leave the new cell for an in-grid unvisited neighbour, there is one for each such neighbour, and none is pushed twice |
| Prims.RemoveAt | pathfinding_simulation_gui_version/src/app/maze/mod.rs:192 | `remove(index)` shortens the frontier by one; `RemoveAtDropsOne` states which entry goes |
| Prims.RemoveAtDropsOne | pathfinding_simulation_gui_version/src/app/maze/mod.rs:192 | `remove(index)` drops exactly one copy of the chosen entry and keeps every other entry |
| Prims.PrimsIteration | pathfinding_simulation_gui_version/src/app/maze/mod.rs:191-227 | one pass of Prim's loop, shared by both versions (also pathfinding_simulation/src/maze/mod.rs:129-170); it keeps the grid's shape and the frontier inside the grid and adds at most three entries net; `PrimsIterationCases` states what a pass does |
| Prims.PrimsIterationCases | pathfinding_simulation_gui_version/src/app/maze/mod.rs:191-227 | a pass removes exactly the chosen entry; a stale entry leaves the grid unchanged; otherwise the far cell is carved to and only entries from it to unvisited cells are appended |
| Prims.StaleKeepsInv | pathfinding_simulation_gui_version/src/app/maze/mod.rs:191-194 | dropping a stale entry keeps Prim's invariant |
| Prims.FreshCovered | pathfinding_simulation_gui_version/src/app/maze/mod.rs:215-227 | after a carve the frontier still has an entry across every boundary between a visited and an unvisited cell |
| Prims.FreshEntries | pathfinding_simulation_gui_version/src/app/maze/mod.rs:192-227 | after a carve every frontier entry still leaves a visited cell for an adjacent one |
| Prims.FreshInv | pathfinding_simulation_gui_version/src/app/maze/mod.rs:194-227 | the two together give Prim's invariant after a carve |
| Prims.FreshKeepsInv | pathfinding_simulation_gui_version/src/app/maze/mod.rs:194-227 | carving through an entry whose far cell is unvisited keeps Prim's invariant |
| Prims.PrimsIterationKeepsInv | pathfinding_simulation_gui_version/src/app/maze/mod.rs:191-229 | every pass, whatever the draw, keeps the invariant; walls are only cleared and visits only added |
| Prims.PrimsIterationProgress | pathfinding_simulation_gui_version/src/app/maze/mod.rs:191-227 | a pass visits a new cell, or shortens the frontier with the visited cells unchanged |
| Prims.ClearBetweenKeepsVisited | pathfinding_simulation_gui_version/src/app/maze/mod.rs:197-213 | clearing a wall pair changes no visited flag |
| Prims.EmptyFrontierIsPerfect | pathfinding_simulation_gui_version/src/app/maze/mod.rs:230-231 | when the frontier is empty the maze is perfect |
| Prims.PrimsRun | pathfinding_simulation/src/maze/mod.rs:127-172 | the loop run until the frontier is empty keeps the grid's shape; `PrimsRunPerfect` states the maze it leaves |
| Prims.PrimsRunPerfect | pathfinding_simulation/src/maze/mod.rs:127-172 | the loop run from any state in the invariant ends with a perfect maze |
| Prims.StartSatisfiesPrimsInv | pathfinding_simulation/src/maze/mod.rs:106-124 | the visited start and any ordering of its initial frontier satisfy Prim's invariant |
| Prims.StartFrontierEntries | pathfinding_simulation/src/maze/mod.rs:108-124 | every entry of a shuffled initial frontier leaves the start for an adjacent cell |
| Prims.StartFrontierCovers | pathfinding_simulation/src/maze/mod.rs:108-124 | a shuffled initial frontier has an entry to each neighbour of the start |
| Prims.PrimsFromStartIsPerfect | pathfinding_simulation/src/maze/mod.rs:103-172 | from the start of a fresh grid and any ordering of its frontier, for every sequence of draws, Prim's builds a perfect maze rooted at the start |
| Engine.TargetsWithin | pathfinding_simulation_gui_version/src/app/maze/mod.rs:187-189 | the far cells of an in-grid frontier lie in the grid |
| Engine.MarkInStackAt | pathfinding_simulation_gui_version/src/app/maze/mod.rs:139-141 | after raising `in_stack` on the listed cells, a node's flag is raised exactly when it was raised or the node is listed; nothing else changes |
| Engine.LayoutCounts | pathfinding_simulation_gui_version/src/app/maze/mod.rs:130-141 | grids that differ only in display flags have the same counts |
| Engine.LayoutKeepsPerfectSoFar | pathfinding_simulation_gui_version/src/app/maze/mod.rs:130-141 | the flag pass keeps the tree invariant |
| Engine.LayoutKeepsDfsInv | pathfinding_simulation_gui_version/src/app/maze/mod.rs:130-141 | the flag pass keeps the backtracker's invariant |
| Engine.LayoutKeepsPrimsInv | pathfinding_simulation_gui_version/src/app/maze/mod.rs:178-189 | the flag pass keeps Prim's invariant |
| Engine.DfsStepSpec | pathfinding_simulation_gui_version/src/app/maze/mod.rs:129-175 | `dfs_step` keeps the grid's shape and the stack inside the grid; `DfsAdvanceKeepsInv` and `DfsStepBudget` state its effect |
| Engine.PrimsStepSpec | pathfinding_simulation_gui_version/src/app/maze/mod.rs:177-233 | `prims_step` keeps the grid's shape and the frontier inside the grid; `PrimsAdvanceKeepsInv` and `PrimsStepBudget` state its effect |
| Engine.Advance | pathfinding_simulation_gui_version/src/app/maze/mod.rs:101-116 | a micro-step keeps grid and generator in bounds and never changes which algorithm runs |
| Engine.Run | pathfinding_simulation_gui_version/src/app/maze/mod.rs:93-126 | `step`'s loop for one algorithm: completion is reported only after at least one micro-step; `RunSplit`, `RunKeeps`, `RunExact` and `RunEnds` state the rest |
| Engine.RunSplit | pathfinding_simulation_gui_version/src/app/maze/mod.rs:93-126 | a + b micro-steps are a micro-steps followed, unless completion was reported, by b more with the next draws |
| Engine.Steps | pathfinding_simulation_gui_version/src/app/maze/mod.rs:92-127 | `step(0)` returns true and changes nothing; with no generator and n >= 1 it returns false and changes nothing; whenever it returns false the generator is gone |
| Engine.StepsUnfold | pathfinding_simulation_gui_version/src/app/maze/mod.rs:93-125 | `step(n)` is one micro-step, then either completion (generator dropped, false) or `step(n - 1)` |
| Engine.StepsSplit | pathfinding_simulation_gui_version/src/app/maze/mod.rs:92-127 | a paused generation resumes where it stopped: `step(a + b)` equals `step(a)` followed, while still in progress, by `step(b)` with the next draws |
| Engine.Maze.DfsStep | pathfinding_simulation_gui_version/src/app/maze/mod.rs:129-175 | `dfs_step` leaves the grid, stack and result of one backtracker micro-step |
| Engine.Maze.PrimsStep | pathfinding_simulation_gui_version/src/app/maze/mod.rs:177-233 | `prims_step` leaves the grid, frontier and result of one Prim's micro-step |
| Engine.Maze.NeighborEntries | pathfinding_simulation_gui_version/src/app/maze/mod.rs:215-227 | the pushed entries are the new cell's entries, left, right, top, bottom |
| Engine.Maze.AdvanceGenerator | pathfinding_simulation_gui_version/src/app/maze/mod.rs:101-116 | the dispatch on the taken-out generator performs one micro-step of its algorithm |
| Engine.Maze.StepOnce | pathfinding_simulation_gui_version/src/app/maze/mod.rs:95-124 | one turn of `step`'s loop: with no generator it reports false and changes nothing; otherwise the grid, the flag and the generator are those of one `Advance` with `rolls(k)`, and the generator is dropped on completion and put back otherwise; the remaining outcome is unchanged |
| Engine.Maze.Step | pathfinding_simulation_gui_version/src/app/maze/mod.rs:92-127 | `step(n)` leaves exactly the grid, generator and result that `Steps` gives, and the maze stays consistent |
| Engine.DfsAdvanceKeepsInv | pathfinding_simulation_gui_version/src/app/maze/mod.rs:129-175 | under the backtracker's invariant a micro-step reports progress exactly when the stack is non-empty, keeps the invariant, and reports completion only with a perfect maze |
| Engine.PrimsAdvanceKeepsInv | pathfinding_simulation_gui_version/src/app/maze/mod.rs:177-233 | under Prim's invariant a micro-step reports progress exactly when the frontier is non-empty, keeps the invariant, and reports completion only with a perfect maze |
| Engine.RunKeeps | pathfinding_simulation_gui_version/src/app/maze/mod.rs:93-126 | whatever every micro-step keeps, `step(n)` keeps while it reports progress, and whatever every reported completion guarantees holds when `step(n)` reports completion |
| Engine.DfsStepsKeepMaze | pathfinding_simulation_gui_version/src/app/maze/mod.rs:92-127 | while `step(n)` on a running backtracker reports progress, the generator is still a backtracker in its invariant; once it reports completion the generator is gone and the maze is perfect |
| Engine.PrimsStepsKeepMaze | pathfinding_simulation_gui_version/src/app/maze/mod.rs:92-127 | the same for a running Prim's generator |
| Engine.DfsStepBudget | pathfinding_simulation_gui_version/src/app/maze/mod.rs:143-171 | every backtracker micro-step on a non-empty stack spends exactly one unit of 2 * unvisited + stack length |
| Engine.AllVisitedNoneLeft | pathfinding_simulation_gui_version/src/app/maze/mod.rs:172-173 | with every cell visited, no cell is unvisited |
| Engine.RunExact | pathfinding_simulation_gui_version/src/app/maze/mod.rs:93-126 | if every micro-step spends exactly one unit of a measure and completion comes only at 0, `step(n)` reports progress exactly when n is at most the measure |
| Engine.DfsStepsExact | pathfinding_simulation_gui_version/src/app/maze/mod.rs:92-175 | under the backtracker's invariant, `step(n)` reports progress exactly when n <= 2 * unvisited + stack length |
| Engine.PrimsStepBudget | pathfinding_simulation_gui_version/src/app/maze/mod.rs:191-229 | every Prim's micro-step on a non-empty frontier lowers 5 * unvisited + frontier length |
| Engine.RunEnds | pathfinding_simulation_gui_version/src/app/maze/mod.rs:93-126 | if every micro-step that reports progress lowers a measure, `step(n)` with n above the measure reports completion |
| Engine.PrimsStepsFinish | pathfinding_simulation_gui_version/src/app/maze/mod.rs:92-127 | `step(n)` with n above the budget ends Prim's generation |
| Engine.StartUnvisited | pathfinding_simulation_gui_version/src/app/maze/mod.rs:52-54 | after the start is marked, w * h - 1 cells are unvisited |
| Engine.InitDfsStartsMaze | pathfinding_simulation_gui_version/src/app/maze/mod.rs:50-59 | `init_dfs` on a fresh maze starts the backtracker in its invariant |
| Engine.InitPrimsStartsMaze | pathfinding_simulation_gui_version/src/app/maze/mod.rs:61-83 | `init_prims` on a fresh maze starts Prim's in its invariant |
| Engine.DfsStepsFrom | pathfinding_simulation_gui_version/src/app/maze/mod.rs:92-175 | from the invariant, `step(n)` reports progress exactly while n is within the budget and reports completion only with a perfect maze |
| Engine.DfsGenerationLength | pathfinding_simulation_gui_version/src/app/maze/mod.rs:50-175 | after `init_dfs` on a fresh w-by-h maze, `step(n)` reports progress exactly when n + 1 <= 2wh (on a 1×1 grid `step(1)` is true and `step(2)` false), and on completion the maze is perfect |
| Engine.PrimsStepsFrom | pathfinding_simulation_gui_version/src/app/maze/mod.rs:92-127 | from the invariant, `step(n)` with n above the budget reports completion, and completion comes only with a perfect maze |
| Engine.PrimsGenerationFinishes | pathfinding_simulation_gui_version/src/app/maze/mod.rs:61-127 | after `init_prims` on a fresh w-by-h maze, `step(n)` with n >= 5wh reports completion, and whenever it does the maze is perfect |
| Batch.Maze.constructor | pathfinding_simulation/src/maze/mod.rs:19-34 | `Maze::new` keeps the dimensions and builds `height` rows of `width` unvisited, fully walled nodes |
| Batch.Shuffle | pathfinding_simulation/src/maze/mod.rs:124 | the shuffled frontier is a rearrangement of the initial one |
| Batch.Maze.Backtrack | pathfinding_simulation/src/maze/mod.rs:55-82 | the `while let` loop leaves exactly the grid of the backtracker's run |
| Batch.Maze.DfsMaze | pathfinding_simulation/src/maze/mod.rs:36-86 | as written: a call on an empty grid, or with the swapped start outside the grid, fails; otherwise it is the backtracker from the swapped start; from a fresh grid it gives a perfect maze when the start is on the diagonal and never a perfect maze otherwise |
| Batch.TransposedStartBreaksMaze | pathfinding_simulation/src/maze/mod.rs:50-55 | for an off-diagonal start whose swapped pair is in the grid, the as-written run is not a perfect maze for any root |
| Batch.Maze.DfsMazeFixed | pathfinding_simulation/src/maze/mod.rs:36-86 | with the start itself stacked, a call succeeds exactly on a non-empty grid and from a fresh grid always gives a perfect maze rooted at the start |
| Batch.Maze.Grow | pathfinding_simulation/src/maze/mod.rs:127-172 | the `while` loop leaves exactly the grid of Prim's run |
| Batch.Maze.PrimsMaze | pathfinding_simulation/src/maze/mod.rs:89-175 | a call succeeds exactly on a non-empty grid; it runs Prim's from a rearrangement of the initial frontier, and from a fresh grid always gives a perfect maze rooted at the start |
| Carving.SealedCellBreaksMaze | pathfinding_simulation/src/maze/mod.rs:50-52 | a visited cell that keeps all four walls, in a grid of two or more cells, rules out a perfect maze for any root |
| Carving.SealedReachedByNothing | pathfinding_simulation/src/maze/mod.rs:50-52 | such a cell is reachable from no other cell |
| Carving.SealedReachesNothing | pathfinding_simulation/src/maze/mod.rs:50-52 | no other cell is reachable from it |
| Dfs.DfsIterationKeepsSealed | pathfinding_simulation/src/maze/mod.rs:55-80 | a pass never touches or pushes a visited, fully walled cell that is not on the stack |
| Dfs.DfsRunKeepsSealed | pathfinding_simulation/src/maze/mod.rs:55-82 | so the whole run leaves such a cell sealed |

## Left out

- Random number generation (`thread_rng`, `gen_range`, `rand::random`, `choose`,
  `shuffle`): every draw is a parameter, and the rand crate is not part of this model.
- Batch.Shuffle: states only that the result is a rearrangement of its input, which is
  all the rest of the model relies on. The uniformity of rand's shuffle is not modelled.
- Progress bars in the batch version (`indicatif`): output only, with no effect on the
  grid.
- The GUI, the terminal menu, PNG saving and file I/O (the other files of the
  repository): not part of this model.
- `is_current` is lowered by every micro-step and never raised; the model keeps the
  flag as the source does.
- The batch `Node` has no display flags. The model uses the same node type for both
  versions, and the batch methods never change the flags.
- Engine.Maze.InitDfs and Engine.Maze.InitPrims: take the start cell as a parameter in
  the grid. The source draws it with `gen_range(0..width)`, which panics on an empty
  grid, so an empty grid is excluded rather than modelled as a panic.
- Batch.Maze.DfsMaze, Batch.Maze.DfsMazeFixed and Batch.Maze.PrimsMaze: a panic
  (`% 0` on an empty grid, or an index outside the grid in the as-written DFS) is
  reported as `ok == false`. The state left behind is stated, but the unwinding is not
  modelled.
- `usize` arithmetic: `self.width - 1` in the neighbour checks is written as
  `x + 1 < width`. The two agree whenever the grid is non-empty, which every reachable
  call has. Coordinates never exceed the grid, so no overflow arises.
- Engine.Steps: is defined by dispatching once on the generator's algorithm and then
  running that algorithm's micro-steps. The source re-dispatches on every micro-step.
  The two agree because a micro-step never changes the algorithm (`Engine.Advance`);
  `Engine.StepsUnfold` proves the micro-step-by-micro-step form.
- Batch.Maze.DfsMaze: for an off-diagonal start, the model proves that the maze is not
  perfect. It does not prove that every cell still ends visited, which is what the unit
  test at pathfinding_simulation/src/maze/mod.rs:202-211 checks. That needs a second
  connectivity argument: that the grid with the sealed start cell removed is still
  connected, and that the loop closes it off. The invariant used here is about a tree
  that contains its root, so it does not carry over.
- Kruskal's algorithm: `init_kruskals` is a placeholder that clears the generator, and
  that is all the model has of it.

## Findings

| source | as written | input that shows it | evidently intended | confidence | as-written member | corrected member |
|---|---|---|---|---|---|---|
| pathfinding_simulation/src/maze/mod.rs:50-52 | `dfs_maze` marks `(start_x, start_y)` visited but pushes `(start_y, start_x)`, which is popped as `(x, y)` | a 2×2 grid with start (0, 1): cell (0, 1) is visited but never popped and never carved to, so it keeps all four walls and the maze is not connected; on a 3×2 grid with start (2, 0), the swapped cell (0, 2) is outside the grid: the pair is popped as x = 0, y = 2, and the right-neighbour check (line 61) indexes row 2 of a two-row grid | push `(start_x, start_y)`, as `init_dfs` does in the GUI version (pathfinding_simulation_gui_version/src/app/maze/mod.rs:56-58) | not executed; proved for every grid and every sequence of draws | Batch.Maze.DfsMaze, Batch.TransposedStartBreaksMaze | Batch.Maze.DfsMazeFixed, Dfs.DfsFromStartIsPerfect |
