/** The cost model `Pos::successors`: which cells one step from `(x, y)` can
    reach, and at what cost.

    Two independent descriptions are given and proved to agree:
    - per direction, in the order the source tries them (`SuccessorSpec`);
    - as a relation between two cells (`IsMove`, `MoveCost`), with no order.
    The method `Successors` follows the source's nested tests and is proved
    to compute `SuccessorSpec`. */
module Moves {
  import opened Cells

  /** The eight directions, named after the change of `(x, y)`: left and right
      change `x`, down and up change `y`. */
  datatype Dir = Left | LeftDown | LeftUp | Right | RightDown | RightUp | Up | Down

  /** The order in which the source appends the neighbours it finds. */
  const ORDER: seq<Dir> := [Left, LeftDown, LeftUp, Right, RightDown, RightUp, Up, Down]

  /** Position of a direction in `ORDER`. */
  function Rank(d: Dir): (r: nat)
    ensures r < |ORDER| && ORDER[r] == d
  {
    match d
    case Left => 0
    case LeftDown => 1
    case LeftUp => 2
    case Right => 3
    case RightDown => 4
    case RightUp => 5
    case Up => 6
    case Down => 7
  }

  function DX(d: Dir): int
  {
    match d
    case Left | LeftDown | LeftUp => -1
    case Right | RightDown | RightUp => 1
    case Up | Down => 0
  }

  function DY(d: Dir): int
  {
    match d
    case LeftDown | RightDown | Down => -1
    case LeftUp | RightUp | Up => 1
    case Left | Right => 0
  }

  predicate IsDiagonal(d: Dir)
  {
    DX(d) != 0 && DY(d) != 0
  }

  /** What direction `d` contributes to the successors of `p`: its target cell
      with the cost of entering it, when that cell is passable and, for a
      diagonal, both orthogonal cells flanking it are passable too. */
  function Offered(grid: Grid, p: Pos, d: Dir): seq<(Pos, U32)>
    requires WellFormed(grid)
  {
    var tx, ty := p.x + DX(d), p.y + DY(d);
    if Passable(grid, tx, ty) && (IsDiagonal(d) ==> Passable(grid, tx, p.y) && Passable(grid, p.x, ty))
    then [(Pos(tx, ty), grid[tx][ty] * (if IsDiagonal(d) then SQRT2 else MULT))]
    else []
  }

  /** The contributions of the first `k` directions of `ORDER`, in that order. */
  function Candidates(grid: Grid, p: Pos, k: nat): seq<(Pos, U32)>
    requires WellFormed(grid) && k <= |ORDER|
  {
    if k == 0 then [] else Candidates(grid, p, k - 1) + Offered(grid, p, ORDER[k - 1])
  }

  /** The successor list of `p`, direction by direction in source order. */
  function SuccessorSpec(grid: Grid, p: Pos): seq<(Pos, U32)>
    requires WellFormed(grid)
  {
    Candidates(grid, p, |ORDER|)
  }

  /** `q` is one of the eight cells around `p`. */
  predicate Adjacent(p: Pos, q: Pos)
  {
    p != q && AbsDiff(p.x, q.x) <= 1 && AbsDiff(p.y, q.y) <= 1
  }

  predicate IsDiagonalMove(p: Pos, q: Pos)
  {
    p.x != q.x && p.y != q.y
  }

  /** One step from `p` to `q` is allowed: `q` is a passable neighbour and a
      diagonal step does not cut a corner, that is, both cells it passes
      between are passable. */
  predicate IsMove(grid: Grid, p: Pos, q: Pos)
    requires Rectangular(grid)
  {
    && Adjacent(p, q)
    && Passable(grid, q.x, q.y)
    && (IsDiagonalMove(p, q) ==> Passable(grid, q.x, p.y) && Passable(grid, p.x, q.y))
  }

  /** The cost of entering `q` from `p`: its weight, scaled by 10000 for an
      orthogonal step and by 14142 for a diagonal one. */
  function MoveCost(grid: Grid, p: Pos, q: Pos): (c: U32)
    requires WellFormed(grid) && InBounds(grid, q)
  {
    grid[q.x][q.y] * (if IsDiagonalMove(p, q) then SQRT2 else MULT)
  }

  /** The direction that leads from `p` to the neighbouring cell `q`; it is
      the only one, since no two directions have the same offsets. */
  function DirTo(p: Pos, q: Pos): (d: Dir)
    requires Adjacent(p, q)
    ensures p.x + DX(d) == q.x && p.y + DY(d) == q.y
  {
    if q.x < p.x then (if q.y < p.y then LeftDown else if q.y > p.y then LeftUp else Left)
    else if q.x > p.x then (if q.y < p.y then RightDown else if q.y > p.y then RightUp else Right)
    else if q.y > p.y then Up else Down
  }

  /** A direction offers at most its own target, and only as an allowed move
      at its move cost. */
  lemma OfferedIsMove(grid: Grid, p: Pos, d: Dir)
    requires WellFormed(grid)
    ensures |Offered(grid, p, d)| <= 1
    ensures forall e :: e in Offered(grid, p, d) ==>
              IsMove(grid, p, e.0) && e.1 == MoveCost(grid, p, e.0) && DirTo(p, e.0) == d
  {
  }

  /** Every allowed move is offered by the direction that leads to it. */
  lemma MoveIsOffered(grid: Grid, p: Pos, q: Pos)
    requires WellFormed(grid) && IsMove(grid, p, q)
    ensures Offered(grid, p, DirTo(p, q)) == [(q, MoveCost(grid, p, q))]
  {
  }

  /** The candidates of the first `k` directions are exactly the allowed
      moves whose direction ranks below `k`, each with its move cost. */
  lemma {:induction false} CandidatesExactly(grid: Grid, p: Pos, k: nat)
    requires WellFormed(grid) && k <= |ORDER|
    ensures |Candidates(grid, p, k)| <= k
    ensures forall e :: e in Candidates(grid, p, k) ==>
              IsMove(grid, p, e.0) && e.1 == MoveCost(grid, p, e.0) && Rank(DirTo(p, e.0)) < k
    ensures forall q :: IsMove(grid, p, q) && Rank(DirTo(p, q)) < k ==>
              (q, MoveCost(grid, p, q)) in Candidates(grid, p, k)
  {
    if k > 0 {
      var d := ORDER[k - 1];
      OfferedIsMove(grid, p, d);
      RankOfOrder(k - 1);
      CandidatesExactly(grid, p, k - 1);
      forall q | IsMove(grid, p, q) && Rank(DirTo(p, q)) < k
        ensures (q, MoveCost(grid, p, q)) in Candidates(grid, p, k)
      {
        if Rank(DirTo(p, q)) == k - 1 {
          MoveIsOffered(grid, p, q);
        }
      }
    }
  }

  /** The candidates of the first `k` directions come in strictly
      increasing rank. */
  lemma {:induction false} CandidatesOrdered(grid: Grid, p: Pos, k: nat)
    requires WellFormed(grid) && k <= |ORDER|
    ensures forall i, j :: 0 <= i < j < |Candidates(grid, p, k)| ==>
      var e, f := Candidates(grid, p, k)[i], Candidates(grid, p, k)[j];
      Adjacent(p, e.0) && Adjacent(p, f.0) && Rank(DirTo(p, e.0)) < Rank(DirTo(p, f.0))
  {
    if k > 0 {
      var r := Candidates(grid, p, k);
      var init := Candidates(grid, p, k - 1);
      var last := Offered(grid, p, ORDER[k - 1]);
      OfferedIsMove(grid, p, ORDER[k - 1]);
      RankOfOrder(k - 1);
      CandidatesExactly(grid, p, k - 1);
      CandidatesOrdered(grid, p, k - 1);
      forall i, j | 0 <= i < j < |r|
        ensures Adjacent(p, r[i].0) && Adjacent(p, r[j].0)
        ensures Rank(DirTo(p, r[i].0)) < Rank(DirTo(p, r[j].0))
      {
        assert r[i] == init[i] && r[i] in init;
        if j >= |init| {
          assert r[j] in last;
        } else {
          assert r[j] == init[j];
        }
      }
    }
  }

  lemma RankOfOrder(k: nat)
    requires k < |ORDER|
    ensures Rank(ORDER[k]) == k
  {
    if k == 0 {} else if k == 1 {} else if k == 2 {} else if k == 3 {}
    else if k == 4 {} else if k == 5 {} else if k == 6 {} else {}
  }

  /** The properties of the successor list on which the search relies:
      - it lists exactly the allowed moves, each with its move cost, so every
        entry is inside the grid, has a nonzero weight, costs `weight * 10000`
        orthogonally or `weight * 14142` diagonally, never cuts a corner, and no
        allowed move is missing;
      - it has at most 8 entries, never lists `p` itself, lists no cell twice
        and follows the order left, left-down, left-up, right, right-down,
        right-up, up, down. */
  lemma SuccessorSpecExactly(grid: Grid, p: Pos)
    requires WellFormed(grid)
    ensures forall e :: e in SuccessorSpec(grid, p) ==>
              IsMove(grid, p, e.0) && e.1 == MoveCost(grid, p, e.0)
    ensures forall q :: IsMove(grid, p, q) ==> (q, MoveCost(grid, p, q)) in SuccessorSpec(grid, p)
    ensures |SuccessorSpec(grid, p)| <= 8
    ensures var r := SuccessorSpec(grid, p);
      forall i, j :: 0 <= i < j < |r| ==>
        Adjacent(p, r[i].0) && Adjacent(p, r[j].0) && r[i].0 != r[j].0 &&
        Rank(DirTo(p, r[i].0)) < Rank(DirTo(p, r[j].0))
  {
    CandidatesExactly(grid, p, |ORDER|);
    CandidatesOrdered(grid, p, |ORDER|);
  }

  /** An entry of the successor list, as a single fact. */
  lemma SuccessorIsMove(grid: Grid, p: Pos, e: (Pos, U32))
    requires WellFormed(grid) && e in SuccessorSpec(grid, p)
    ensures IsMove(grid, p, e.0) && e.1 == MoveCost(grid, p, e.0)
  {
    SuccessorSpecExactly(grid, p);
  }

  /** An allowed move, as an entry of the successor list. */
  lemma MoveIsSuccessor(grid: Grid, p: Pos, q: Pos)
    requires WellFormed(grid) && IsMove(grid, p, q)
    ensures (q, MoveCost(grid, p, q)) in SuccessorSpec(grid, p)
  {
    SuccessorSpecExactly(grid, p);
  }

  /** `Pos::successors`: reads the four orthogonal neighbours of an in-bounds
      cell, then appends each passable one and, nested under the tests on
      the left and right neighbours, each diagonal whose flanking cells are
      both passable. Every grid read is in bounds and no cost overflows a
      `u32`. */
  method Successors(grid: Grid, p: Pos) returns (arr: seq<(Pos, U32)>)
    requires WellFormed(grid) && InBounds(grid, p)
    ensures arr == SuccessorSpec(grid, p)
  {
    var x, y := p.x, p.y;
    arr := [];

    var valLeft: U32, valDown: U32, valRight: U32, valUp: U32 := 0, 0, 0, 0;
    if x > 0 {
      valLeft := grid[x - 1][y];
    }
    if y > 0 {
      valDown := grid[x][y - 1];
    }
    if x + 1 < |grid| {
      valRight := grid[x + 1][y];
    }
    if y + 1 < |grid[0]| {
      valUp := grid[x][y + 1];
    }
    assert valLeft > 0 <==> Passable(grid, x - 1, y);
    assert valDown > 0 <==> Passable(grid, x, y - 1);
    assert valRight > 0 <==> Passable(grid, x + 1, y);
    assert valUp > 0 <==> Passable(grid, x, y + 1);

    ghost var oL, oLD, oLU := Offered(grid, p, Left), Offered(grid, p, LeftDown), Offered(grid, p, LeftUp);
    ghost var oR, oRD, oRU := Offered(grid, p, Right), Offered(grid, p, RightDown), Offered(grid, p, RightUp);
    ghost var oU, oD := Offered(grid, p, Up), Offered(grid, p, Down);

    if valLeft > 0 {
      var left: (Pos, U32) := (Pos(x - 1, y), valLeft * MULT);
      arr := arr + [left];
      assert arr == oL;
      if valDown > 0 {
        var diagVal := grid[x - 1][y - 1];
        if diagVal > 0 {
          var leftDown: (Pos, U32) := (Pos(x - 1, y - 1), diagVal * SQRT2);
          arr := arr + [leftDown];
        }
      }
      assert arr == oL + oLD;
      if valUp > 0 {
        var diagVal := grid[x - 1][y + 1];
        if diagVal > 0 {
          var leftUp: (Pos, U32) := (Pos(x - 1, y + 1), diagVal * SQRT2);
          arr := arr + [leftUp];
        }
      }
      assert arr == oL + oLD + oLU;
    } else {
      assert oL == oLD == oLU == [];
    }
    assert arr == oL + oLD + oLU;
    ghost var leftPart := arr;

    if valRight > 0 {
      var right: (Pos, U32) := (Pos(x + 1, y), valRight * MULT);
      arr := arr + [right];
      assert arr == leftPart + oR;
      if valDown > 0 {
        var diagVal := grid[x + 1][y - 1];
        if diagVal > 0 {
          var rightDown: (Pos, U32) := (Pos(x + 1, y - 1), diagVal * SQRT2);
          arr := arr + [rightDown];
        }
      }
      assert arr == leftPart + oR + oRD;
      if valUp > 0 {
        var diagVal := grid[x + 1][y + 1];
        if diagVal > 0 {
          var rightUp: (Pos, U32) := (Pos(x + 1, y + 1), diagVal * SQRT2);
          arr := arr + [rightUp];
        }
      }
      assert arr == leftPart + oR + oRD + oRU;
    } else {
      assert oR == oRD == oRU == [];
    }
    assert arr == oL + oLD + oLU + oR + oRD + oRU;

    if valUp > 0 {
      var up: (Pos, U32) := (Pos(x, y + 1), valUp * MULT);
      arr := arr + [up];
    }
    assert arr == oL + oLD + oLU + oR + oRD + oRU + oU;
    if valDown > 0 {
      var down: (Pos, U32) := (Pos(x, y - 1), valDown * MULT);
      arr := arr + [down];
    }
    SuccessorSpecUnfolded(grid, p);
  }

  /** `SuccessorSpec` with its eight contributions written out. */
  lemma SuccessorSpecUnfolded(grid: Grid, p: Pos)
    requires WellFormed(grid)
    ensures SuccessorSpec(grid, p) ==
      Offered(grid, p, Left) + Offered(grid, p, LeftDown) + Offered(grid, p, LeftUp) +
      Offered(grid, p, Right) + Offered(grid, p, RightDown) + Offered(grid, p, RightUp) +
      Offered(grid, p, Up) + Offered(grid, p, Down)
  {
    var c1, c2, c3, c4 := Candidates(grid, p, 1), Candidates(grid, p, 2), Candidates(grid, p, 3), Candidates(grid, p, 4);
    var c5, c6, c7, c8 := Candidates(grid, p, 5), Candidates(grid, p, 6), Candidates(grid, p, 7), Candidates(grid, p, 8);
    assert c1 == Offered(grid, p, Left) by {
      assert c1 == Candidates(grid, p, 0) + Offered(grid, p, Left);
      assert Candidates(grid, p, 0) == [];
    }
    assert c2 == c1 + Offered(grid, p, LeftDown) by { }
    assert c3 == c2 + Offered(grid, p, LeftUp) by { }
    assert c4 == c3 + Offered(grid, p, Right) by { }
    assert c5 == c4 + Offered(grid, p, RightDown) by { }
    assert c6 == c5 + Offered(grid, p, RightUp) by { }
    assert c7 == c6 + Offered(grid, p, Up) by { }
    assert c8 == c7 + Offered(grid, p, Down) by { }
  }
}
