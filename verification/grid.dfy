/** Cells of the warehouse floor, 4-adjacency, walks around obstacles and
    the Manhattan heuristic shared by the path finder and the route planner. */
module Grid {

  /** A floor cell; cells are compared by their coordinates. */
  datatype Cell = Cell(row: int, col: int)

  /** The floor is GridRows by GridCols cells. */
  const GridRows: int := 10
  const GridCols: int := 15

  function Abs(x: int): nat
  {
    if x < 0 then -x else x
  }

  predicate InBounds(c: Cell)
  {
    0 <= c.row < GridRows && 0 <= c.col < GridCols
  }

  /** A cell the robot may move onto: on the floor and not an obstacle. */
  predicate Passable(c: Cell, obstacles: seq<Cell>)
  {
    InBounds(c) && c !in obstacles
  }

  /** One step up, down, left or right: the cells differ by 1 in exactly one axis. */
  predicate Adjacent(a: Cell, b: Cell)
  {
    (a.row == b.row && Abs(a.col - b.col) == 1) || (a.col == b.col && Abs(a.row - b.row) == 1)
  }

  /** Manhattan distance, the A* heuristic and the nearest-pickup metric. */
  function Heuristic(node: Cell, goal: Cell): (h: nat)
    ensures h == 0 <==> node == goal
  {
    Abs(node.row - goal.row) + Abs(node.col - goal.col)
  }

  lemma HeuristicSymmetric(a: Cell, b: Cell)
    ensures Heuristic(a, b) == Heuristic(b, a)
  {
  }

  /** Consistency: one step changes the distance to any goal by at most 1. */
  lemma HeuristicStep(a: Cell, b: Cell, goal: Cell)
    requires Adjacent(a, b)
    ensures Heuristic(a, goal) <= Heuristic(b, goal) + 1
    ensures Heuristic(b, goal) <= Heuristic(a, goal) + 1
  {
  }

  /** The step into index i of `p` is a single move. */
  predicate StepAt(p: seq<Cell>, i: int)
    requires 0 < i < |p|
  {
    Adjacent(p[i - 1], p[i])
  }

  /** Every consecutive pair of `p` is adjacent. */
  predicate Chained(p: seq<Cell>)
  {
    forall i :: 0 < i < |p| ==> StepAt(p, i)
  }

  lemma AdjacentSymmetric(a: Cell, b: Cell)
    requires Adjacent(a, b)
    ensures Adjacent(b, a)
  {
  }

  /** Extending a chain by a cell adjacent to its last keeps it a chain. */
  lemma ChainedSnoc(p: seq<Cell>, c: Cell)
    requires Chained(p) && (p != [] ==> Adjacent(p[|p| - 1], c))
    ensures Chained(p + [c])
  {
    var q := p + [c];
    forall i | 0 < i < |q|
      ensures StepAt(q, i)
    {
      if i < |p| {
        assert StepAt(p, i);
      }
    }
  }

  /** `p` walks from `from` to `to` in single steps, entering only passable cells;
      the first cell, where the robot already stands, is not checked. */
  predicate IsWalk(p: seq<Cell>, from: Cell, to: Cell, obstacles: seq<Cell>)
  {
    |p| > 0 && p[0] == from && p[|p| - 1] == to && Chained(p) &&
    forall i :: 0 < i < |p| ==> Passable(p[i], obstacles)
  }

  ghost predicate Reachable(from: Cell, to: Cell, obstacles: seq<Cell>)
  {
    exists p :: IsWalk(p, from, to, obstacles)
  }

  /** Along a chain of steps the heuristic falls by at most one per step. */
  lemma {:induction false} HeuristicDrift(p: seq<Cell>, k: nat, goal: Cell)
    requires k < |p| && Chained(p)
    ensures Heuristic(p[k], goal) <= |p| - 1 - k + Heuristic(p[|p| - 1], goal)
    decreases |p| - k
  {
    if k < |p| - 1 {
      HeuristicDrift(p, k + 1, goal);
      assert StepAt(p, k + 1);
      HeuristicStep(p[k], p[k + 1], goal);
    }
  }

  /** Admissibility: no walk is shorter than the Manhattan distance of its ends. */
  lemma WalkAtLeastHeuristic(p: seq<Cell>, from: Cell, to: Cell, obstacles: seq<Cell>)
    requires IsWalk(p, from, to, obstacles)
    ensures Heuristic(from, to) <= |p| - 1
  {
    HeuristicDrift(p, 0, to);
  }

  /** The prefix of a walk that ends at index k - 1 is a walk. */
  lemma WalkPrefix(p: seq<Cell>, k: nat, from: Cell, to: Cell, obstacles: seq<Cell>)
    requires IsWalk(p, from, to, obstacles) && 0 < k <= |p|
    ensures IsWalk(p[..k], from, p[k - 1], obstacles)
  {
    forall i | 0 < i < k
      ensures StepAt(p[..k], i)
    {
      assert StepAt(p, i);
    }
  }

  /** JavaScript's `splice(i, 1)`: the sequence without its i-th element. */
  function RemoveAt(s: seq<Cell>, i: nat): (r: seq<Cell>)
    requires i < |s|
    ensures |r| == |s| - 1
    ensures forall x :: x in r ==> x in s
    ensures forall x :: x in s && x != s[i] ==> x in r
  {
    s[..i] + s[i + 1..]
  }

  /** Splicing out one element removes exactly one copy of it. */
  lemma RemoveAtMultiset(s: seq<Cell>, i: nat)
    requires i < |s|
    ensures multiset(RemoveAt(s, i)) + multiset{s[i]} == multiset(s)
  {
    assert s == s[..i] + [s[i]] + s[i + 1..];
  }

  /** A chain read backwards is a chain. */
  lemma ReversedChained(p: seq<Cell>)
    requires Chained(p)
    ensures Chained(Reversed(p))
  {
    var r := Reversed(p);
    forall i | 0 < i < |r|
      ensures StepAt(r, i)
    {
      assert r[i - 1] == p[|p| - i] && r[i] == p[|p| - 1 - i];
      assert StepAt(p, |p| - i);
      AdjacentSymmetric(p[|p| - i - 1], p[|p| - i]);
    }
  }

  /** JavaScript's `reverse()`. */
  function Reversed(s: seq<Cell>): (r: seq<Cell>)
    ensures |r| == |s|
    ensures forall i :: 0 <= i < |s| ==> r[i] == s[|s| - 1 - i]
  {
    if s == [] then [] else Reversed(s[1..]) + [s[0]]
  }
}
