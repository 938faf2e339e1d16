/** A reference search over the cost model, standing in for the library
    search that `find_path` calls: a breadth-first search that expands each
    cell through `Successors`. It returns a path whenever one exists (not
    necessarily the cheapest), and so shows that the contract `find_path`
    relies on can be met by a search over the successor lists. */
module Reference {
  import opened Cells
  import opened Moves
  import opened Paths
  import opened Search

  /** The cells `(x, 0)` to `(x, height - 1)`. */
  function Column(x: nat, height: nat): (cells: set<Pos>)
    ensures forall p :: p in cells <==> p.x == x && p.y < height
  {
    if height == 0 then {} else Column(x, height - 1) + {Pos(x, height - 1)}
  }

  /** The cells of the first `width` columns of the grid. */
  function Columns(width: nat, height: nat): (cells: set<Pos>)
    ensures forall p :: p in cells <==> p.x < width && p.y < height
  {
    if width == 0 then {} else Columns(width - 1, height) + Column(width - 1, height)
  }

  /** All cells of the grid. */
  function AllCells(grid: Grid): (cells: set<Pos>)
    requires |grid| > 0
    ensures forall p :: p in cells <==> InBounds(grid, p)
  {
    Columns(|grid|, |grid[0]|)
  }

  /** A path extended by one allowed move is a path to the new cell. */
  lemma PathExtend(grid: Grid, start: Pos, c: Pos, q: Pos, path: seq<Pos>)
    requires Rectangular(grid) && IsPath(grid, start, c, path) && IsMove(grid, c, q)
    ensures IsPath(grid, start, q, path + [q])
  {
    var ext := path + [q];
    forall i | 0 <= i < |ext| - 1 ensures IsMove(grid, ext[i], ext[i + 1]) {
      if i < |path| - 1 {
        assert ext[i] == path[i] && ext[i + 1] == path[i + 1];
      }
    }
  }

  /** A walk that starts inside a set of cells closed under moves never leaves it. */
  lemma {:induction false} WalkStaysInside(grid: Grid, inside: set<Pos>, path: seq<Pos>)
    requires Rectangular(grid) && IsWalk(grid, path) && |path| > 0 && path[0] in inside
    requires forall c, q :: c in inside && IsMove(grid, c, q) ==> q in inside
    ensures forall i :: 0 <= i < |path| ==> path[i] in inside
  {
    if |path| > 1 {
      var rest := path[1..];
      assert IsMove(grid, path[0], path[1]);
      assert IsWalk(grid, rest) by {
        forall i | 0 <= i < |rest| - 1 ensures IsMove(grid, rest[i], rest[i + 1]) {
          assert rest[i] == path[i + 1];
        }
      }
      WalkStaysInside(grid, inside, rest);
      forall i | 0 < i < |path| ensures path[i] in inside {
        assert path[i] == rest[i - 1];
      }
    }
  }

  /** No path leads from inside a set of cells closed under moves to a goal
      outside it. */
  lemma Unreachable(grid: Grid, start: Pos, goal: Pos, inside: set<Pos>)
    requires Rectangular(grid) && start in inside && goal !in inside
    requires forall c, q :: c in inside && IsMove(grid, c, q) ==> q in inside
    ensures forall path :: !IsPath(grid, start, goal, path)
  {
    forall path | IsPath(grid, start, goal, path) ensures false {
      WalkStaysInside(grid, inside, path);
    }
  }

  /** Finding one more cell of the grid leaves one fewer to find. */
  lemma OneFewerLeft(all: set<Pos>, found: set<Pos>, q: Pos)
    requires q in all && q !in found
    ensures |all - (found + {q})| == |all - found| - 1
  {
    var left := all - found;
    assert all - (found + {q}) == left - {q};
    assert left == (left - {q}) + {q};
  }

  /** Every cell found so far is reached by the path recorded for it. */
  ghost predicate RoutesValid(grid: Grid, start: Pos, route: map<Pos, seq<Pos>>)
    requires Rectangular(grid)
  {
    forall c :: c in route ==> IsPath(grid, start, c, route[c])
  }

  /** Every found cell that is no longer pending has all its moves found. */
  ghost predicate ClosedExceptPending(grid: Grid, found: set<Pos>, pending: seq<Pos>)
    requires Rectangular(grid)
  {
    forall c, q :: c in found && c !in pending && IsMove(grid, c, q) ==> q in found
  }

  /** Recording a cell reached by one move from a found cell keeps every
      recorded path valid. */
  lemma RoutesExtend(grid: Grid, start: Pos, route: map<Pos, seq<Pos>>, c: Pos, q: Pos)
    requires Rectangular(grid) && RoutesValid(grid, start, route)
    requires c in route && IsMove(grid, c, q)
    ensures RoutesValid(grid, start, route[q := route[c] + [q]])
  {
    PathExtend(grid, start, c, q, route[c]);
  }

  /** The found cells `found` and the queue `queue` grow `found0` and
      `queue0` within `all`: the queue only gains cells at its end, holds
      only found cells and holds every newly found one, and every cell found
      shrinks the cells left to find by one. */
  ghost predicate Grew(all: set<Pos>, found0: set<Pos>, queue0: seq<Pos>, found: set<Pos>, queue: seq<Pos>)
  {
    && found0 <= found <= all
    && queue0 <= queue
    && (forall d :: d in queue ==> d in found)
    && (forall d :: d in found && d !in found0 ==> d in queue)
    && |all - found| + (|queue| - |queue0|) == |all - found0|
  }

  /** Finding a new cell `q` and appending it to the queue keeps the growth
      invariant. */
  lemma GrewStep(all: set<Pos>, found0: set<Pos>, queue0: seq<Pos>, found: set<Pos>, queue: seq<Pos>, q: Pos)
    requires Grew(all, found0, queue0, found, queue) && q !in found && q in all
    ensures Grew(all, found0, queue0, found + {q}, queue + [q])
  {
    OneFewerLeft(all, found, q);
    assert forall d :: d in queue + [q] ==> d in queue || d == q;
  }

  /** Every entry of `succ` is a move out of `c`. */
  ghost predicate MovesFrom(grid: Grid, c: Pos, succ: seq<(Pos, U32)>)
    requires Rectangular(grid)
  {
    forall k :: 0 <= k < |succ| ==> IsMove(grid, c, succ[k].0)
  }

  /** The growth invariant after recording the new cell `q` with `path`. */
  lemma GrewRecord(all: set<Pos>, found0: set<Pos>, queue0: seq<Pos>, route: map<Pos, seq<Pos>>,
                   queue: seq<Pos>, q: Pos, path: seq<Pos>)
    requires Grew(all, found0, queue0, route.Keys, queue) && q !in route && q in all
    ensures Grew(all, found0, queue0, route[q := path].Keys, queue + [q])
  {
    assert route[q := path].Keys == route.Keys + {q};
    GrewStep(all, found0, queue0, route.Keys, queue, q);
  }

  /** Records the cell `q`, one move away from the found cell `c`, unless
      it is found already: its path is the path to `c` extended by `q`, and
      it joins the end of the queue. */
  method Record(grid: Grid, start: Pos, c: Pos, q: Pos, route0: map<Pos, seq<Pos>>, queue0: seq<Pos>,
                route: map<Pos, seq<Pos>>, queue: seq<Pos>)
    returns (route': map<Pos, seq<Pos>>, queue': seq<Pos>)
    requires WellFormed(grid) && c in route && IsMove(grid, c, q)
    requires RoutesValid(grid, start, route)
    requires Grew(AllCells(grid), route0.Keys, queue0, route.Keys, queue)
    ensures RoutesValid(grid, start, route')
    ensures Grew(AllCells(grid), route0.Keys, queue0, route'.Keys, queue')
    ensures route.Keys <= route'.Keys && q in route'
  {
    if q in route {
      route', queue' := route, queue;
    } else {
      RoutesExtend(grid, start, route, c, q);
      GrewRecord(AllCells(grid), route0.Keys, queue0, route, queue, q, route[c] + [q]);
      route' := route[q := route[c] + [q]];
      queue' := queue + [q];
    }
  }

  /** Once the `j`th entry is found too, the first `j + 1` entries are found. */
  lemma StillFound(succ: seq<(Pos, U32)>, j: nat, before: set<Pos>, after: set<Pos>)
    requires j < |succ| && before <= after && succ[j].0 in after
    requires forall k :: 0 <= k < j ==> succ[k].0 in before
    ensures forall k :: 0 <= k < j + 1 ==> succ[k].0 in after
  {
  }

  /** Visiting the offered moves `succ` out of the found cell `c`: each
      target is recorded in turn. */
  method Visit(grid: Grid, start: Pos, c: Pos, succ: seq<(Pos, U32)>,
               route: map<Pos, seq<Pos>>, queue: seq<Pos>)
    returns (route': map<Pos, seq<Pos>>, queue': seq<Pos>)
    requires WellFormed(grid) && c in route && route.Keys <= AllCells(grid)
    requires RoutesValid(grid, start, route) && forall d :: d in queue ==> d in route
    requires MovesFrom(grid, c, succ)
    ensures RoutesValid(grid, start, route')
    ensures Grew(AllCells(grid), route.Keys, queue, route'.Keys, queue')
    ensures forall k :: 0 <= k < |succ| ==> succ[k].0 in route'.Keys
  {
    route', queue' := route, queue;
    for j := 0 to |succ|
      invariant c in route'
      invariant RoutesValid(grid, start, route')
      invariant Grew(AllCells(grid), route.Keys, queue, route'.Keys, queue')
      invariant forall k :: 0 <= k < j ==> succ[k].0 in route'.Keys
    {
      ghost var before := route'.Keys;
      route', queue' := Record(grid, start, c, succ[j].0, route, queue, route', queue');
      StillFound(succ, j, before, route'.Keys);
    }
  }

  /** Expanding cell `c`: its successor list is computed and every cell it
      offers is visited, so that afterwards every move out of `c` leads to a
      found cell. */
  method Expand(grid: Grid, start: Pos, c: Pos, route: map<Pos, seq<Pos>>, queue: seq<Pos>)
    returns (route': map<Pos, seq<Pos>>, queue': seq<Pos>)
    requires WellFormed(grid) && c in route && route.Keys <= AllCells(grid)
    requires RoutesValid(grid, start, route) && forall d :: d in queue ==> d in route
    ensures RoutesValid(grid, start, route')
    ensures Grew(AllCells(grid), route.Keys, queue, route'.Keys, queue')
    ensures forall q :: IsMove(grid, c, q) ==> q in route'
  {
    assert InBounds(grid, c) by {
      assert IsPath(grid, start, c, route[c]);
    }
    var succ := Successors(grid, c);
    forall k | 0 <= k < |succ| ensures IsMove(grid, c, succ[k].0) {
      SuccessorIsMove(grid, c, succ[k]);
    }
    route', queue' := Visit(grid, start, c, succ, route, queue);
    forall q | IsMove(grid, c, q) ensures q in route' {
      MoveIsSuccessor(grid, c, q);
    }
  }

  /** Once `c` is expanded, the found cells are closed again except for the
      cells still in the queue. */
  lemma ClosedAfterExpand(grid: Grid, queue: seq<Pos>, found: set<Pos>,
                          found': set<Pos>, queue': seq<Pos>)
    requires Rectangular(grid) && |queue| > 0 && ClosedExceptPending(grid, found, queue)
    requires found <= found'
    requires queue[1..] <= queue'
    requires forall d :: d in found' && d !in found ==> d in queue'
    requires forall q :: IsMove(grid, queue[0], q) ==> q in found'
    ensures ClosedExceptPending(grid, found', queue')
  {
    forall d, q | d in found' && d !in queue' && IsMove(grid, d, q) ensures q in found' {
      if d != queue[0] {
        assert queue == [queue[0]] + queue[1..];
        assert d !in queue;
      }
    }
  }

  /** Breadth-first search from `start`: `route` maps every cell found so
      far to a path that reaches it, and `queue` holds the found cells not
      yet expanded. The search stops when the goal is found or no cell is
      left to expand. */
  method BreadthFirst(grid: Grid, start: Pos, goal: Pos) returns (found: Option<seq<Pos>>)
    requires WellFormed(grid) && InBounds(grid, start)
    ensures found.Some? ==> IsPath(grid, start, goal, found.value)
    ensures found.None? ==> forall path :: !IsPath(grid, start, goal, path)
  {
    var route: map<Pos, seq<Pos>> := map[start := [start]];
    var queue: seq<Pos> := [start];
    while queue != [] && goal !in route
      invariant start in route && route.Keys <= AllCells(grid)
      invariant RoutesValid(grid, start, route)
      invariant forall c :: c in queue ==> c in route
      invariant ClosedExceptPending(grid, route.Keys, queue)
      decreases |AllCells(grid) - route.Keys|, |queue|
    {
      var c := queue[0];
      var route', queue' := Expand(grid, start, c, route, queue[1..]);
      ClosedAfterExpand(grid, queue, route.Keys, route'.Keys, queue');
      route, queue := route', queue';
    }
    if goal in route {
      found := Some(route[goal]);
    } else {
      found := None;
      assert queue == [];
      Unreachable(grid, start, goal, route.Keys);
    }
  }

  /** The reference search packaged as the search result `find_path`
      expects. The cost is the sum of the step costs; when that sum does not
      fit in a `u32`, where the source's search would overflow, `overflow`
      is set and nothing is reported. */
  method ReferenceSearch(grid: Grid, start: Pos, goal: Pos)
    returns (result: Option<(seq<Pos>, U32)>, overflow: bool)
    requires WellFormed(grid) && InBounds(grid, start)
    ensures SearchContract(grid, start, goal, result)
    ensures overflow ==> result.None?
    ensures result.None? && !overflow ==> forall path :: !IsPath(grid, start, goal, path)
  {
    var found := BreadthFirst(grid, start, goal);
    overflow := false;
    if found.None? {
      result := None;
    } else {
      var cost := PathCost(grid, found.value);
      if cost < U32_MODULUS {
        result := Some((found.value, cost));
      } else {
        result := None;
        overflow := true;
      }
    }
  }
}
