/** Paths over the cost model: what a search may return, what it costs, and
    why both heuristics handed to the search never overestimate that cost. */
module Paths {
  import opened Cells
  import opened Moves

  /** Every step of `path` is an allowed move. */
  predicate IsWalk(grid: Grid, path: seq<Pos>)
    requires Rectangular(grid)
  {
    forall i :: 0 <= i < |path| - 1 ==> IsMove(grid, path[i], path[i + 1])
  }

  /** A path from `start` to `goal`, both included, as the search reports it. */
  predicate IsPath(grid: Grid, start: Pos, goal: Pos, path: seq<Pos>)
    requires Rectangular(grid)
  {
    && |path| > 0
    && path[0] == start
    && path[|path| - 1] == goal
    && InBounds(grid, start)
    && IsWalk(grid, path)
  }

  /** The total cost of a walk: the sum of its move costs. */
  function PathCost(grid: Grid, path: seq<Pos>): nat
    requires WellFormed(grid) && IsWalk(grid, path)
  {
    if |path| < 2 then 0
    else
      assert IsWalk(grid, path[1..]) by {
        forall i | 0 <= i < |path[1..]| - 1 ensures IsMove(grid, path[1..][i], path[1..][i + 1]) {
          assert path[1..][i] == path[i + 1] && path[1..][i + 1] == path[i + 2];
        }
      }
      MoveCost(grid, path[0], path[1]) + PathCost(grid, path[1..])
  }

  /** One step changes the Manhattan distance to any cell by at most 1
      orthogonally and at most 2 diagonally, while the step costs at least
      10000 orthogonally and 14142 diagonally, because the cell entered has
      a nonzero weight. */
  lemma MoveBounds(grid: Grid, p: Pos, q: Pos, goal: Pos)
    requires WellFormed(grid) && IsMove(grid, p, q)
    ensures Manhattan(p, goal) <= Manhattan(q, goal) + (if IsDiagonalMove(p, q) then 2 else 1)
    ensures Manhattan(q, goal) <= Manhattan(p, goal) + (if IsDiagonalMove(p, q) then 2 else 1)
    ensures MoveCost(grid, p, q) >= (if IsDiagonalMove(p, q) then SQRT2 else MULT)
  {
  }

  /** Every walk costs at least 7071 per unit of Manhattan distance between
      its ends: an orthogonal step gains at most 1 for 10000, a diagonal step
      at most 2 for 14142 = 2 * 7071. */
  lemma {:induction false} PathCostLowerBound(grid: Grid, path: seq<Pos>)
    requires WellFormed(grid) && IsWalk(grid, path) && |path| > 0
    ensures 7071 * Manhattan(path[0], path[|path| - 1]) <= PathCost(grid, path)
  {
    if |path| >= 2 {
      var rest := path[1..];
      assert IsWalk(grid, rest) by {
        forall i | 0 <= i < |rest| - 1 ensures IsMove(grid, rest[i], rest[i + 1]) {
          assert rest[i] == path[i + 1];
        }
      }
      PathCostLowerBound(grid, rest);
      MoveBounds(grid, path[0], path[1], path[|path| - 1]);
    }
  }

  /** Both heuristics are admissible: from any cell, neither `distance` (the
      heuristic of `find_path`) nor `distance / 3` (that of `debug_path`)
      exceeds the cost of any path to the goal. */
  lemma HeuristicsAdmissible(grid: Grid, p: Pos, goal: Pos, path: seq<Pos>)
    requires WellFormed(grid) && IsPath(grid, p, goal, path)
    ensures DebugHeuristic(p, goal) <= FindPathHeuristic(p, goal) <= PathCost(grid, path)
  {
    PathCostLowerBound(grid, path);
  }

  /** Both heuristics are consistent: across one allowed move the estimate
      drops by no more than the move costs, as long as neither distance has
      been truncated to 32 bits. */
  lemma HeuristicsConsistent(grid: Grid, p: Pos, q: Pos, goal: Pos)
    requires WellFormed(grid) && IsMove(grid, p, q)
    requires Manhattan(p, goal) < U32_MODULUS && Manhattan(q, goal) < U32_MODULUS
    ensures FindPathHeuristic(p, goal) <= MoveCost(grid, p, q) + FindPathHeuristic(q, goal)
    ensures DebugHeuristic(p, goal) <= MoveCost(grid, p, q) + DebugHeuristic(q, goal)
  {
    MoveBounds(grid, p, q, goal);
  }

  /** A walk without diagonal steps costs at least 10000 per unit of
      Manhattan distance between its ends. */
  lemma {:induction false} OrthogonalWalkLowerBound(grid: Grid, path: seq<Pos>)
    requires WellFormed(grid) && IsWalk(grid, path) && |path| > 0
    requires forall i :: 0 <= i < |path| - 1 ==> !IsDiagonalMove(path[i], path[i + 1])
    ensures MULT * Manhattan(path[0], path[|path| - 1]) <= PathCost(grid, path)
  {
    if |path| >= 2 {
      var rest := path[1..];
      assert IsWalk(grid, rest) by {
        forall i | 0 <= i < |rest| - 1 ensures IsMove(grid, rest[i], rest[i + 1]) {
          assert rest[i] == path[i + 1];
        }
      }
      assert forall i :: 0 <= i < |rest| - 1 ==> !IsDiagonalMove(rest[i], rest[i + 1]) by {
        forall i | 0 <= i < |rest| - 1 ensures !IsDiagonalMove(rest[i], rest[i + 1]) {
          assert rest[i] == path[i + 1];
        }
      }
      OrthogonalWalkLowerBound(grid, rest);
      MoveBounds(grid, path[0], path[1], path[|path| - 1]);
    }
  }

  /** A 3 by 3 grid of weight 1 everywhere. */
  const OPEN_3X3: Grid := [[1, 1, 1], [1, 1, 1], [1, 1, 1]]

  /** The same grid with its centre blocked. */
  const RING_3X3: Grid := [[1, 1, 1], [1, 0, 1], [1, 1, 1]]

  /** On the open 3 by 3 grid the two diagonal steps from corner to corner
      form a path of cost 2 * 14142, and no path between those corners is
      cheaper. */
  lemma DiagonalShortcutIsOptimal()
    ensures WellFormed(OPEN_3X3)
    ensures IsPath(OPEN_3X3, Pos(0, 0), Pos(2, 2), [Pos(0, 0), Pos(1, 1), Pos(2, 2)])
    ensures PathCost(OPEN_3X3, [Pos(0, 0), Pos(1, 1), Pos(2, 2)]) == 2 * SQRT2
    ensures forall path :: IsPath(OPEN_3X3, Pos(0, 0), Pos(2, 2), path) ==>
              2 * SQRT2 <= PathCost(OPEN_3X3, path)
  {
    var shortcut := [Pos(0, 0), Pos(1, 1), Pos(2, 2)];
    assert IsMove(OPEN_3X3, shortcut[0], shortcut[1]);
    assert IsMove(OPEN_3X3, shortcut[1], shortcut[2]);
    assert shortcut[1..][1..] == [Pos(2, 2)];
    forall path | IsPath(OPEN_3X3, Pos(0, 0), Pos(2, 2), path)
      ensures 2 * SQRT2 <= PathCost(OPEN_3X3, path)
    {
      PathCostLowerBound(OPEN_3X3, path);
    }
  }

  /** On the 3 by 3 grid with a blocked centre, every move that does not
      start from the centre is orthogonal: any diagonal would enter the
      centre or pass between it and another cell. */
  lemma RingMovesAreOrthogonal(p: Pos, q: Pos)
    requires IsMove(RING_3X3, p, q) && p != Pos(1, 1)
    ensures q != Pos(1, 1) && !IsDiagonalMove(p, q)
  {
    if IsDiagonalMove(p, q) {
      assert false;
    }
  }

  /** On the 3 by 3 grid with a blocked centre, the path from corner to
      corner goes around the centre at cost 4 * 10000; no path between those
      corners visits the centre or costs less. */
  lemma DetourAroundBlockedCentre()
    ensures WellFormed(RING_3X3)
    ensures IsPath(RING_3X3, Pos(0, 0), Pos(2, 2), [Pos(0, 0), Pos(1, 0), Pos(2, 0), Pos(2, 1), Pos(2, 2)])
    ensures PathCost(RING_3X3, [Pos(0, 0), Pos(1, 0), Pos(2, 0), Pos(2, 1), Pos(2, 2)]) == 4 * MULT
    ensures forall path :: IsPath(RING_3X3, Pos(0, 0), Pos(2, 2), path) ==>
              Pos(1, 1) !in path && 4 * MULT <= PathCost(RING_3X3, path)
  {
    var detour := [Pos(0, 0), Pos(1, 0), Pos(2, 0), Pos(2, 1), Pos(2, 2)];
    assert IsMove(RING_3X3, detour[0], detour[1]);
    assert IsMove(RING_3X3, detour[1], detour[2]);
    assert IsMove(RING_3X3, detour[2], detour[3]);
    assert IsMove(RING_3X3, detour[3], detour[4]);
    assert detour[1..][1..][1..][1..] == [Pos(2, 2)];
    forall path | IsPath(RING_3X3, Pos(0, 0), Pos(2, 2), path)
      ensures Pos(1, 1) !in path && 4 * MULT <= PathCost(RING_3X3, path)
    {
      forall i | 0 <= i < |path| ensures path[i] != Pos(1, 1) {
        if i > 0 {
          assert IsMove(RING_3X3, path[i - 1], path[i]);
        }
      }
      forall i | 0 <= i < |path| - 1 ensures !IsDiagonalMove(path[i], path[i + 1]) {
        RingMovesAreOrthogonal(path[i], path[i + 1]);
      }
      OrthogonalWalkLowerBound(RING_3X3, path);
    }
  }
}
