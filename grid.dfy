// The cell grid shared by both maze generators: nodes, wall indices,
// point updates and the counting functions the spanning-tree argument uses.

module Grid {

  /** The four wall flags of a cell, indexed 0 = top, 1 = right, 2 = bottom,
      3 = left; `true` means the wall is present. */
  type Walls = s: seq<bool> | |s| == 4 witness [true, true, true, true]

  /** One grid position. `isCurrent` and `inStack` are display hints only. */
  datatype Node = Node(x: nat, y: nat, visited: bool, walls: Walls, isCurrent: bool, inStack: bool)

  /** A grid is stored row by row: `g[y][x]` is the node at column x, row y. */
  type Board = seq<seq<Node>>

  type Coord = (nat, nat)

  predicate Shaped(g: Board, w: nat, h: nat) {
    |g| == h && forall y | 0 <= y < h :: |g[y]| == w
  }

  predicate InGrid(w: nat, h: nat, c: Coord) {
    c.0 < w && c.1 < h
  }

  function FreshNode(x: nat, y: nat): Node {
    Node(x, y, false, [true, true, true, true], false, false)
  }

  /** `Maze::new`: `height` rows of `width` fresh nodes. */
  function NewGrid(w: nat, h: nat): (g: Board)
    ensures Shaped(g, w, h)
    ensures forall y, x | 0 <= y < h && 0 <= x < w ::
      && g[y][x].x == x && g[y][x].y == y
      && !g[y][x].visited
      && g[y][x].walls == [true, true, true, true]
      && !g[y][x].isCurrent && !g[y][x].inStack
  {
    seq(h, (y: int) requires 0 <= y < h => seq(w, (x: int) requires 0 <= x < w => FreshNode(x, y)))
  }

  // ---------------------------------------------------------------------
  // Directions. A wall index doubles as the direction it faces.

  /** Whether the cell (x, y) has an in-bounds neighbour behind wall d. */
  predicate HasNeighbor(w: nat, h: nat, x: nat, y: nat, d: nat) {
    if d == 0 then y > 0
    else if d == 1 then x + 1 < w
    else if d == 2 then y + 1 < h
    else d == 3 && x > 0
  }

  /** The cell behind wall d of (x, y). */
  function Neighbor(x: nat, y: nat, d: nat): Coord
    requires d < 4 && (d == 0 ==> y > 0) && (d == 3 ==> x > 0)
  {
    if d == 0 then (x, y - 1)
    else if d == 1 then (x + 1, y)
    else if d == 2 then (x, y + 1)
    else (x - 1, y)
  }

  /** The wall a neighbour uses for the same boundary: top/bottom, right/left. */
  function Opposite(d: nat): (e: nat)
    requires d < 4
    ensures e < 4 && e != d
  {
    (d + 2) % 4
  }

  lemma NeighborBack(w: nat, h: nat, x: nat, y: nat, d: nat)
    requires d < 4 && HasNeighbor(w, h, x, y, d) && x < w && y < h
    ensures var n := Neighbor(x, y, d);
      && InGrid(w, h, n)
      && HasNeighbor(w, h, n.0, n.1, Opposite(d))
      && Neighbor(n.0, n.1, Opposite(d)) == (x, y)
  {
  }

  // ---------------------------------------------------------------------
  // Point updates

  function SetNode(g: Board, x: nat, y: nat, n: Node): (r: Board)
    requires y < |g| && x < |g[y]|
    ensures |r| == |g| && forall j | 0 <= j < |g| :: |r[j]| == |g[j]|
  {
    g[y := g[y][x := n]]
  }

  /** `grid[y][x].walls[i] = false` */
  function ClearWall(g: Board, x: nat, y: nat, i: nat): (r: Board)
    requires y < |g| && x < |g[y]| && i < 4
  {
    SetNode(g, x, y, g[y][x].(walls := g[y][x].walls[i := false]))
  }

  /** `grid[y][x].visited = true` */
  function MarkVisited(g: Board, x: nat, y: nat): (r: Board)
    requires y < |g| && x < |g[y]|
  {
    SetNode(g, x, y, g[y][x].(visited := true))
  }

  // ---------------------------------------------------------------------
  // Counting over the grid

  function RowSum(row: seq<Node>, f: Node -> nat): nat {
    if row == [] then 0 else f(row[0]) + RowSum(row[1..], f)
  }

  function GridSum(g: Board, f: Node -> nat): nat {
    if g == [] then 0 else RowSum(g[0], f) + GridSum(g[1..], f)
  }

  function VisitedScore(n: Node): nat { if n.visited then 1 else 0 }

  function UnvisitedScore(n: Node): nat { if n.visited then 0 else 1 }

  /** A cell owns the boundaries to its right and below; each cleared one is a passage. */
  function PassageScore(n: Node): nat {
    (if n.walls[1] then 0 else 1) + (if n.walls[2] then 0 else 1)
  }

  function VisitedCount(g: Board): nat { GridSum(g, VisitedScore) }

  function UnvisitedCount(g: Board): nat { GridSum(g, UnvisitedScore) }

  /** Number of cleared wall pairs, each counted once (at its left or upper cell). */
  function Passages(g: Board): nat { GridSum(g, PassageScore) }

  lemma {:induction false} RowSumUpdate(row: seq<Node>, i: nat, n: Node, f: Node -> nat)
    requires i < |row|
    ensures RowSum(row[i := n], f) + f(row[i]) == RowSum(row, f) + f(n)
  {
    if i > 0 {
      assert row[i := n][1..] == row[1..][i - 1 := n];
      RowSumUpdate(row[1..], i - 1, n, f);
    } else {
      assert row[i := n][1..] == row[1..];
    }
  }

  lemma {:induction false} SetNodeSum(g: Board, x: nat, y: nat, n: Node, f: Node -> nat)
    requires y < |g| && x < |g[y]|
    ensures GridSum(SetNode(g, x, y, n), f) + f(g[y][x]) == GridSum(g, f) + f(n)
  {
    if y > 0 {
      assert SetNode(g, x, y, n)[1..] == SetNode(g[1..], x, y - 1, n);
      SetNodeSum(g[1..], x, y - 1, n, f);
    } else {
      assert SetNode(g, x, y, n)[1..] == g[1..];
      RowSumUpdate(g[0], x, n, f);
    }
  }

  /** Two grids of the same shape whose nodes score alike have equal sums. */
  lemma {:induction false} GridSumPointwise(g: Board, g': Board, f: Node -> nat)
    requires |g| == |g'|
    requires forall y | 0 <= y < |g| :: |g[y]| == |g'[y]|
    requires forall y, x | 0 <= y < |g| && 0 <= x < |g[y]| :: f(g[y][x]) == f(g'[y][x])
    ensures GridSum(g, f) == GridSum(g', f)
  {
    if g != [] {
      RowSumPointwise(g[0], g'[0], f);
      GridSumPointwise(g[1..], g'[1..], f);
    }
  }

  lemma {:induction false} RowSumPointwise(r: seq<Node>, r': seq<Node>, f: Node -> nat)
    requires |r| == |r'|
    requires forall x | 0 <= x < |r| :: f(r[x]) == f(r'[x])
    ensures RowSum(r, f) == RowSum(r', f)
  {
    if r != [] {
      RowSumPointwise(r[1..], r'[1..], f);
    }
  }

  /** A grid of `h` rows of `w` nodes each scoring `k` sums to `k * w * h`. */
  lemma {:induction false} GridSumConstant(g: Board, w: nat, h: nat, f: Node -> nat, k: nat)
    requires Shaped(g, w, h)
    requires forall y, x | 0 <= y < h && 0 <= x < w :: f(g[y][x]) == k
    ensures GridSum(g, f) == k * w * h
  {
    if h > 0 {
      RowSumConstant(g[0], f, k);
      GridSumConstant(g[1..], w, h - 1, f, k);
      assert k * w * h == k * w * (h - 1) + k * w;
    }
  }

  lemma {:induction false} RowSumConstant(r: seq<Node>, f: Node -> nat, k: nat)
    requires forall x | 0 <= x < |r| :: f(r[x]) == k
    ensures RowSum(r, f) == k * |r|
  {
    if r != [] {
      RowSumConstant(r[1..], f, k);
    }
  }
}
