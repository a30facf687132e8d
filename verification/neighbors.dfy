/** getNeighbors: the passable 4-connected neighbours of a cell, in the fixed
    order up, down, left, right. */
module GridNeighbors {
  import opened Grid

  /** A move as a row and column offset. */
  datatype Offset = Offset(dRow: int, dCol: int)

  /** The four moves, in the order they are tried: up, down, left, right. */
  const Directions: seq<Offset> := [Offset(-1, 0), Offset(1, 0), Offset(0, -1), Offset(0, 1)]

  /** The cell one move `d` away from `c`. */
  function Step(c: Cell, d: Offset): Cell
  {
    Cell(c.row + d.dRow, c.col + d.dCol)
  }

  /** The passable cells among the first `k` steps of Directions from `node`, in order. */
  function PassableSteps(node: Cell, k: nat, obstacles: seq<Cell>): seq<Cell>
    requires k <= |Directions|
  {
    if k == 0 then [] else PassableSteps(node, k - 1, obstacles) + Keep(Step(node, Directions[k - 1]), obstacles)
  }

  /** `[c]` when the robot may enter `c`, otherwise nothing. */
  function Keep(c: Cell, obstacles: seq<Cell>): seq<Cell>
  {
    if Passable(c, obstacles) then [c] else []
  }

  /** Reference definition of what getNeighbors returns. */
  function Neighbors(node: Cell, obstacles: seq<Cell>): seq<Cell>
  {
    PassableSteps(node, |Directions|, obstacles)
  }

  /** Which of the four moves leads from `node` to the adjacent cell `n`:
      0 up, 1 down, 2 left, 3 right. */
  function DirectionOf(node: Cell, n: Cell): (d: nat)
    requires Adjacent(node, n)
    ensures d < |Directions| && n == Step(node, Directions[d])
  {
    if n.row < node.row then 0 else if n.row > node.row then 1 else if n.col < node.col then 2 else 3
  }

  /** Each of the four moves reaches an adjacent cell, and no two of them the same one. */
  lemma MovesAdjacent(c: Cell)
    ensures forall k :: 0 <= k < |Directions| ==> Adjacent(c, Step(c, Directions[k]))
    ensures forall k, j :: 0 <= k < j < |Directions| ==> Step(c, Directions[k]) != Step(c, Directions[j])
  {
  }

  /** Only the move DirectionOf names leads from `node` to `n`. */
  lemma DirectionOfUnique(node: Cell, n: Cell, e: nat)
    requires e < |Directions| && n == Step(node, Directions[e])
    ensures Adjacent(node, n) && DirectionOf(node, n) == e
  {
  }

  /** The first k moves yield exactly the passable cells they reach. */
  lemma {:induction false} PassableStepsMembers(node: Cell, k: nat, obstacles: seq<Cell>)
    requires k <= |Directions|
    ensures |PassableSteps(node, k, obstacles)| <= k
    ensures forall n :: n in PassableSteps(node, k, obstacles) <==>
      Passable(n, obstacles) && exists j :: 0 <= j < k && n == Step(node, Directions[j])
    ensures forall n :: n in PassableSteps(node, k, obstacles) ==> Adjacent(node, n) && DirectionOf(node, n) < k
  {
    if k > 0 {
      PassableStepsMembers(node, k - 1, obstacles);
      var c := Step(node, Directions[k - 1]);
      assert Adjacent(node, c) && DirectionOf(node, c) == k - 1;
      var prev := PassableSteps(node, k - 1, obstacles);
      assert forall n :: n in PassableSteps(node, k, obstacles) <==> n in prev || (n == c && Passable(c, obstacles));
    }
  }

  /** The first k moves yield their cells in move order. */
  lemma {:induction false} PassableStepsOrdered(node: Cell, k: nat, obstacles: seq<Cell>)
    requires k <= |Directions|
    ensures forall n :: n in PassableSteps(node, k, obstacles) ==> Adjacent(node, n)
    ensures var ns := PassableSteps(node, k, obstacles);
      forall i, j :: 0 <= i < j < |ns| ==> DirectionOf(node, ns[i]) < DirectionOf(node, ns[j])
  {
    PassableStepsMembers(node, k, obstacles);
    if k > 0 {
      PassableStepsOrdered(node, k - 1, obstacles);
      PassableStepsMembers(node, k - 1, obstacles);
    }
  }

  /** The neighbours are exactly the passable cells one step away, at most
      four of them, listed in the order up, down, left, right. */
  lemma NeighborsSpec(node: Cell, obstacles: seq<Cell>)
    ensures |Neighbors(node, obstacles)| <= 4
    ensures forall n :: n in Neighbors(node, obstacles) <==> Adjacent(node, n) && Passable(n, obstacles)
    ensures var ns := Neighbors(node, obstacles);
      forall i, j :: 0 <= i < j < |ns| ==> DirectionOf(node, ns[i]) < DirectionOf(node, ns[j])
  {
    PassableStepsMembers(node, |Directions|, obstacles);
    PassableStepsOrdered(node, |Directions|, obstacles);
    forall n | Adjacent(node, n)
      ensures exists j :: 0 <= j < |Directions| && n == Step(node, Directions[j])
    {
      var d := DirectionOf(node, n);
    }
  }

  /** No cell is listed twice among the neighbours. */
  lemma NeighborsDistinct(node: Cell, obstacles: seq<Cell>)
    ensures var ns := Neighbors(node, obstacles);
      forall i, j :: 0 <= i < j < |ns| ==> ns[i] != ns[j]
  {
    NeighborsSpec(node, obstacles);
  }

  /** getNeighbors: tries the four directions in order and keeps the passable steps. */
  method GetNeighbors(node: Cell, obstacles: seq<Cell>) returns (neighbors: seq<Cell>)
    ensures neighbors == Neighbors(node, obstacles)
  {
    neighbors := [];
    for i := 0 to |Directions|
      invariant neighbors == PassableSteps(node, i, obstacles)
    {
      var dir := Directions[i];
      var newRow := node.row + dir.dRow;
      var newCol := node.col + dir.dCol;
      if newRow < 0 || newRow >= GridRows || newCol < 0 || newCol >= GridCols {
        continue;
      }
      if Cell(newRow, newCol) in obstacles {
        continue;
      }
      neighbors := neighbors + [Cell(newRow, newCol)];
    }
  }
}
