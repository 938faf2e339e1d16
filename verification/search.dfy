/** The entry point `find_path`: it runs the search from `start` to `end`
    over the cost model and hands back the path as coordinate pairs with its
    cost, or an empty path with cost 0 when the search finds nothing. */
module Search {
  import opened Cells
  import opened Moves
  import opened Paths

  datatype Option<T> = None | Some(value: T)

  /** What `find_path` relies on from the search it calls: either nothing is
      found, or the result is a path from `start` to `goal` whose every step
      is a successor and whose cost is the sum of its step costs. */
  predicate SearchContract(grid: Grid, start: Pos, goal: Pos, result: Option<(seq<Pos>, U32)>)
    requires WellFormed(grid)
  {
    match result
    case None => true
    case Some((path, cost)) => IsPath(grid, start, goal, path) && cost == PathCost(grid, path)
  }

  /** The cells named by a sequence of coordinate pairs. */
  function AsCells(path: seq<(nat, nat)>): (cells: seq<Pos>)
    ensures |cells| == |path|
    ensures forall i :: 0 <= i < |path| ==> cells[i] == Pos(path[i].0, path[i].1)
  {
    if path == [] then [] else [Pos(path[0].0, path[0].1)] + AsCells(path[1..])
  }

  /** `find_path`, given the outcome `result` of the search it runs. The
      path comes back cell by cell as coordinate pairs and the cost as the
      search reported it; an empty path with cost 0 signals that nothing was
      found, since a found path holds at least its start. */
  method FindPath(grid: Grid, start: (nat, nat), end: (nat, nat), result: Option<(seq<Pos>, U32)>)
    returns (path: seq<(nat, nat)>, distance: U32)
    requires WellFormed(grid)
    requires SearchContract(grid, Pos(start.0, start.1), Pos(end.0, end.1), result)
    ensures result.None? ==> path == [] && distance == 0
    ensures result.Some? ==>
      && |path| == |result.value.0|
      && (forall i :: 0 <= i < |path| ==> path[i] == (result.value.0[i].x, result.value.0[i].y))
      && distance == result.value.1
    ensures path == [] <==> result.None?
    ensures path != [] ==>
      && IsPath(grid, Pos(start.0, start.1), Pos(end.0, end.1), AsCells(path))
      && distance == PathCost(grid, AsCells(path))
  {
    if result.None? {
      path := [];
      distance := 0;
    } else {
      var (found, cost) := result.value;
      distance := cost;
      path := [];
      for i := 0 to |found|
        invariant |path| == i
        invariant forall j :: 0 <= j < i ==> path[j] == (found[j].x, found[j].y)
      {
        path := path + [(found[i].x, found[i].y)];
      }
      assert AsCells(path) == found;
    }
  }
}
