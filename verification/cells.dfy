/** Cells of the weighted grid: the integer width the source computes in,
    positions, the grid itself and the Manhattan heuristic `Pos::distance`. */
module Cells {

  /** Rust's `u32`: the type of cell weights, move costs and distances. */
  type U32 = x: int | 0 <= x < 0x1_0000_0000

  const U32_MODULUS: int := 0x1_0000_0000

  /** Cost scale of a diagonal move: sqrt(2) times 10000, rounded. */
  const SQRT2: U32 := 14142

  /** Cost scale of an orthogonal move: 1.0 times 10000. */
  const MULT: U32 := 10000

  /** The largest weight whose diagonal cost `weight * SQRT2` still fits in a `u32`. */
  const MAX_WEIGHT: nat := 303702

  lemma MaxWeightIsTight()
    ensures MAX_WEIGHT * SQRT2 < U32_MODULUS <= (MAX_WEIGHT + 1) * SQRT2
  {
  }

  /** A cell `(x, y)`, read as `grid[x][y]`. */
  datatype Pos = Pos(x: nat, y: nat)

  /** `grid[x][y]` is the weight of cell `(x, y)`; weight 0 means blocked. */
  type Grid = seq<seq<U32>>

  /** The width is `|grid|` and every column has the height `|grid[0]|`. */
  predicate Rectangular(grid: Grid)
  {
    |grid| > 0 && forall i :: 0 <= i < |grid| ==> |grid[i]| == |grid[0]|
  }

  /** No weight is so large that multiplying it by a cost scale overflows a `u32`. */
  predicate WeightsFit(grid: Grid)
  {
    forall i, j :: 0 <= i < |grid| && 0 <= j < |grid[i]| ==> grid[i][j] <= MAX_WEIGHT
  }

  predicate WellFormed(grid: Grid)
  {
    Rectangular(grid) && WeightsFit(grid)
  }

  predicate InBounds(grid: Grid, p: Pos)
  {
    |grid| > 0 && p.x < |grid| && p.y < |grid[0]|
  }

  /** Cell `(x, y)` exists and is not blocked. */
  predicate Passable(grid: Grid, x: int, y: int)
    requires Rectangular(grid)
  {
    0 <= x < |grid| && 0 <= y < |grid[0]| && grid[x][y] > 0
  }

  function AbsDiff(a: nat, b: nat): (d: nat)
    ensures d == a - b || d == b - a
  {
    if a < b then b - a else a - b
  }

  /** The mathematical Manhattan distance, before any truncation. */
  function Manhattan(a: Pos, b: Pos): nat
  {
    AbsDiff(a.x, b.x) + AbsDiff(a.y, b.y)
  }

  /** `Pos::distance`: the Manhattan distance cast to `u32`, which keeps its low 32 bits. */
  function Distance(a: Pos, b: Pos): (d: U32)
    ensures d <= Manhattan(a, b)
    ensures Manhattan(a, b) < U32_MODULUS ==> d == Manhattan(a, b)
  {
    Manhattan(a, b) % U32_MODULUS
  }

  /** The heuristic `find_path` gives the search: the distance itself. */
  function FindPathHeuristic(p: Pos, goal: Pos): (h: U32)
    ensures h <= Manhattan(p, goal)
  {
    Distance(p, goal)
  }

  /** The heuristic `debug_path` gives the search: a third of the distance, rounded down. */
  function DebugHeuristic(p: Pos, goal: Pos): (h: U32)
    ensures 3 * h <= FindPathHeuristic(p, goal) < 3 * h + 3
  {
    Distance(p, goal) / 3
  }

  lemma DistanceSymmetric(a: Pos, b: Pos)
    ensures Distance(a, b) == Distance(b, a)
  {
  }

  /** Without truncation the distance is 0 exactly on equal positions. */
  lemma DistanceZeroIffEqual(a: Pos, b: Pos)
    requires Manhattan(a, b) < U32_MODULUS
    ensures Distance(a, b) == 0 <==> a == b
  {
  }
}
