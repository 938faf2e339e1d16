# sc2-pathlib grid path-finding, modelled in Dafny

sc2-pathlib finds paths on a weighted grid. `grid[x][y]` is the weight of
cell `(x, y)`, and weight 0 marks a blocked cell. `Pos::successors` lists the
cells one step away that can be entered, with the cost of entering each:

- an orthogonal step costs `weight * 10000`;
- a diagonal step costs `weight * 14142`, and it is offered only when both
  orthogonal cells it passes between are passable (no corner cutting).

`find_path` runs an A* search over these successors. Its heuristic is the
Manhattan distance `Pos::distance`, truncated to `u32`. It returns the path as
coordinate pairs with its cost, or an empty path with cost 0. `debug_path` runs
the same search with the heuristic divided by 3.

The model is split into five modules.

- `Cells` (cells.dfy) holds:
  - `u32` as the subset type `U32` and the two cost scales;
  - positions and the grid, with the conditions the code relies on: the grid is
    rectangular and non-empty, and no weight overflows when it is scaled;
  - `Distance`, with the `as u32` truncation written out, and the two
    heuristics.
- `Moves` (moves.dfy) holds `Successors`. It is an imperative method that
  follows the source's nested tests and is proved equal to `SuccessorSpec`,
  which lists direction by direction in the order the source pushes them. That
  list is also proved to hold exactly the moves of an order-free relation,
  `IsMove`/`MoveCost`: nothing is missing, nothing is extra, every cost is
  right, no entry repeats, and the order is fixed.
- `Paths` (paths.dfy) holds paths and their costs. It proves that both
  heuristics are admissible and consistent, and works two 3 by 3 grids by hand:
  - on the open grid the diagonal shortcut is optimal;
  - on the grid with a blocked centre every path goes around the centre.
- `Search` (search.dfy) holds `find_path`. The A* search of the `pathfinding`
  crate is not part of this model. Its outcome is a parameter, constrained by
  the contract `find_path` relies on (`SearchContract`). `FindPath` converts
  that outcome exactly as the source does.
- `Reference` (reference.dfy) holds a breadth-first search over `Successors`.
  It shows that `SearchContract` can be met. It finds a path whenever one
  exists and proves that none exists otherwise. It does not claim the
  cheapest path.

The heuristic is measured in cells, while costs are in units of 1/10000. It
therefore never overestimates (`HeuristicsAdmissible`), but it is far below
the real cost.

Costs are charged per step entered, not per cell visited. The corner-to-corner
path on an open 3 by 3 grid visits three cells, but it takes two diagonal steps
and costs `2 × 14142`, not `3 × 14142` (`DiagonalShortcutIsOptimal`).

## Model

| member | source | states |
|---|---|---|
| `Cells.AbsDiff` | src/lib.rs:15 | `absdiff` is the distance between two naturals, in whichever direction is non-negative |
| `Cells.Distance` | src/lib.rs:14-16 | the distance never exceeds the Manhattan distance, and equals it whenever the Manhattan distance is below 2^32 |
| `Cells.DistanceSymmetric` | src/lib.rs:14-16 | the distance from a to b equals the distance from b to a |
| `Cells.DistanceZeroIffEqual` | src/lib.rs:14-16 | when not truncated, the distance is 0 exactly for equal positions |
| `Cells.FindPathHeuristic` | src/lib.rs:139 | the heuristic of `find_path` is at most the Manhattan distance to the goal |
| `Cells.DebugHeuristic` | src/lib.rs:117 | the heuristic of `debug_path` is the `find_path` heuristic divided by 3, rounded down |
| `Moves.Successors` | src/lib.rs:18-101 | the method reads only in-bounds cells and never overflows `u32`; it returns exactly `SuccessorSpec`: left, left-down, left-up, right, right-down, right-up, up, down, each present when passable and, for diagonals, when both flanking cells are passable |
| `Moves.OfferedIsMove` | src/lib.rs:44-98 | a direction offers at most one entry; that entry is an allowed move in that direction, at its move cost |
| `Moves.MoveIsOffered` | src/lib.rs:44-98 | every allowed move is offered by its direction, at weight times 10000 or 14142 |
| `Moves.CandidatesExactly` | src/lib.rs:44-98 | the entries from the first k directions are exactly the allowed moves whose direction ranks below k, at their move costs |
| `Moves.CandidatesOrdered` | src/lib.rs:44-98 | entries appear in strictly increasing direction rank, the order of the source's pushes |
| `Moves.SuccessorSpecUnfolded` | src/lib.rs:44-98 | the successor list is the eight per-direction contributions concatenated in source order |
| `Moves.SuccessorSpecExactly` | src/lib.rs:44-98 | the list has every allowed move and nothing else, each with its cost; it has at most 8 entries, all adjacent and distinct, in source order |
| `Moves.SuccessorIsMove` | src/lib.rs:18-101 | every entry of the list is an allowed move at its move cost |
| `Moves.MoveIsSuccessor` | src/lib.rs:18-101 | every allowed move appears in the list with its move cost |
| `Paths.MoveBounds` | src/lib.rs:44-98 | one step changes the Manhattan distance by at most 1 orthogonally and 2 diagonally; it costs at least 10000 orthogonally and 14142 diagonally |
| `Paths.PathCostLowerBound` | src/lib.rs:44-98 | every walk costs at least 7071 per unit of Manhattan distance between its ends |
| `Paths.HeuristicsAdmissible` | src/lib.rs:139 | neither `distance / 3` (line 117) nor `distance` exceeds the cost of any path to the goal |
| `Paths.HeuristicsConsistent` | src/lib.rs:139 | across any allowed move, neither heuristic drops by more than the move costs, when distances are untruncated |
| `Paths.OrthogonalWalkLowerBound` | src/lib.rs:44-98 | a walk without diagonal steps costs at least 10000 per unit of Manhattan distance |
| `Paths.DiagonalShortcutIsOptimal` | src/lib.rs:44-64 | on an open 3 by 3 grid, (0,0) to (1,1) to (2,2) is a path of cost 2 × 14142, and no path between those corners is cheaper |
| `Paths.RingMovesAreOrthogonal` | src/lib.rs:48-86 | with the centre of a 3 by 3 grid blocked, no move enters the centre and no move from another cell is diagonal |
| `Paths.DetourAroundBlockedCentre` | src/lib.rs:44-98 | with the centre blocked, the route around the edge costs 4 × 10000; every corner-to-corner path avoids the centre and costs at least that much |
| `Search.AsCells` | src/lib.rs:152-154 | reading coordinate pairs back as cells keeps the length and every position |
| `Search.FindPath` | src/lib.rs:135-158 | no result gives `([], 0)`; a result gives the path pair by pair, in order, with the search's cost; the path is empty exactly when nothing was found; a non-empty path runs start to goal over allowed moves (`IsPath`), and its cost is the sum of its step costs (`PathCost`), as `SearchContract` asks of the search at line 139 |
| `Reference.BreadthFirst` | src/lib.rs:139 | a returned path runs from start to goal over allowed moves; when none is returned, no such path exists |
| `Reference.ReferenceSearch` | src/lib.rs:139-155 | the outcome meets `SearchContract`; reporting no path without overflow means no path exists |

## Left out

- The Python binding (`#[pyfunction]`, `#[pymodule]`, `PyResult`) and `sum_as_string` are not modelled. They are glue code with no path-finding logic.
- The A* search of the `pathfinding` crate is not part of this model. `find_path` takes its outcome as a parameter constrained by `SearchContract`. `Reference.BreadthFirst` shows that the contract can be met, but it does not model A*'s choice of the cheapest path or its tie-breaking.
- `debug_path` is modelled only through its heuristic `distance / 3` (`DebugHeuristic`). Its timing, string formatting and the panic of `unwrap` when no path exists are I/O or aborts.
- The commented-out floating-point `SQRT2` is not modelled; only the integer scale 14142 is used.
- Moves.Successors: requires every weight to be at most 303702, so that `weight * 14142` fits in a `u32`. The source multiplies without a check: a debug build panics and a release build wraps.
- Moves.Successors: requires the grid to be non-empty and rectangular, and the cell to be inside it; this is the caller precondition of the design. Outside it the source panics on some inputs, on an out-of-range index, and on others it reads cells without panicking: a ragged grid such as `[[1],[1,1]]` read from (0,0), or a start just outside the grid whose neighbours are inside it. The model covers neither outcome.
- Search.FindPath: does not represent outcomes that start off the grid. On `[[1]]` from (1,0) to (0,0) the source's successors read only `grid[0][0]`, and `find_path` returns `([(1,0),(0,0)], 10000)`. When the start equals the goal and lies off the grid, the search returns `([start], 0)` without calling the successors. `SearchContract` asks for a start inside the grid, so it admits neither result.
- Search.FindPath: a search whose path cost does not fit in a `u32` is outside the model. `SearchContract` asks for the exact summed cost as a `u32`, so such a search may only report nothing found, and `FindPath` then returns `([], 0)`. The source's search adds the costs in `u32`: a debug build panics and a release build wraps, and `find_path` passes the wrapped cost on.
- Cells.Distance: models the `as u32` cast but not a `usize` overflow of the sum of the two differences, which needs coordinates near 2^64.
- Cells.DistanceZeroIffEqual: assumes the Manhattan distance is below 2^32. A truncated distance can be 0 for distinct positions.
- Paths.HeuristicsConsistent: assumes both Manhattan distances are below 2^32. Truncation can break consistency for cells 2^32 apart.
- Reference.ReferenceSearch: reports overflow instead of a result when the path's cost does not fit in a `u32`, where the source's search would wrap or panic.
