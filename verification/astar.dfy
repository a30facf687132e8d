/** findPath: A* search over the grid with unit step cost and the Manhattan
    heuristic.  The open list, the closed list and the cameFrom, gScore and
    fScore dictionaries are local variables, updated step by step as in
    script.js's findPath; the dictionaries' "row,col" keys are the cells themselves. */
module AStar {
  import opened Grid
  import opened GridNeighbors

  /** What findPath promises: an empty result exactly when no walk joins the
      two cells, otherwise a walk from `start` to `end` that no walk beats. */
  ghost predicate ShortestPathOrNone(start: Cell, end: Cell, obstacles: seq<Cell>, path: seq<Cell>)
  {
    if path == [] then !Reachable(start, end, obstacles)
    else IsWalk(path, start, end, obstacles) && forall p :: IsWalk(p, start, end, obstacles) ==> |path| <= |p|
  }

  /** From a cell to itself the only shortest walk is the one-cell path. */
  lemma SameCellPath(c: Cell, obstacles: seq<Cell>, path: seq<Cell>)
    requires ShortestPathOrNone(c, c, obstacles, path)
    ensures path == [c]
  {
    assert IsWalk([c], c, c, obstacles);
    assert |path| <= 1;
  }

  // ---------------------------------------------------------------------------
  // The search invariant

  ghost function Elems(s: seq<Cell>): set<Cell>
  {
    set x | x in s
  }

  /** Every cell the search can hold: the floor plus the start cell. */
  ghost function Space(start: Cell): set<Cell>
  {
    (set r, c | 0 <= r < GridRows && 0 <= c < GridCols :: Cell(r, c)) + {start}
  }

  ghost predicate NoDuplicates(s: seq<Cell>)
  {
    forall i, j :: 0 <= i < j < |s| ==> s[i] != s[j]
  }

  /** Open cells carry a g-score and the f-score g + h; closed cells a g-score. */
  ghost predicate Scored(end: Cell, open: seq<Cell>, closed: seq<Cell>, g: map<Cell, nat>, f: map<Cell, nat>)
  {
    (forall n :: n in open ==> n in g && n in f && f[n] == g[n] + Heuristic(n, end)) &&
    (forall n :: n in closed ==> n in g)
  }

  /** The open list has no repeats and shares no cell with the closed list. */
  ghost predicate Separate(open: seq<Cell>, closed: seq<Cell>)
  {
    NoDuplicates(open) && forall n :: n in open ==> n !in closed
  }

  /** The start has g-score 0; it is the only open cell before the first
      expansion and the first closed cell after it. */
  ghost predicate Rooted(start: Cell, open: seq<Cell>, closed: seq<Cell>, g: map<Cell, nat>)
  {
    start in g && g[start] == 0 &&
    (closed == [] ==> open == [start]) &&
    (closed != [] ==> closed[0] == start)
  }

  /** The search only ever holds the start and passable cells. */
  ghost predicate Confined(start: Cell, obstacles: seq<Cell>, open: seq<Cell>, closed: seq<Cell>)
  {
    forall n :: n in open || n in closed ==> n == start || Passable(n, obstacles)
  }

  /** cameFrom links each recorded cell to a closed, adjacent cell whose
      g-score is one less. */
  ghost predicate Parents(start: Cell, obstacles: seq<Cell>, closed: seq<Cell>, cameFrom: map<Cell, Cell>, g: map<Cell, nat>)
  {
    forall n {:trigger cameFrom[n]} :: n in cameFrom ==>
      n != start && Passable(n, obstacles) && n in g &&
      cameFrom[n] in closed && cameFrom[n] in g && g[n] == g[cameFrom[n]] + 1 &&
      Adjacent(cameFrom[n], n)
  }

  /** Every cell reached, except the start, has a parent. */
  ghost predicate Linked(start: Cell, open: seq<Cell>, closed: seq<Cell>, cameFrom: map<Cell, Cell>)
  {
    forall n :: (n in open || n in closed) && n != start ==> n in cameFrom
  }

  /** Each passable neighbour of an expanded cell is closed, or open with a
      g-score at most one more than the expanded cell's. */
  ghost predicate Covered(obstacles: seq<Cell>, open: seq<Cell>, closed: seq<Cell>, g: map<Cell, nat>, expanded: seq<Cell>)
  {
    forall c, n :: c in expanded && n in Neighbors(c, obstacles) ==>
      n in closed || (n in open && n in g && c in g && g[n] <= g[c] + 1)
  }

  /** Closed cells are settled: no walk from the start is shorter than their g-score. */
  ghost predicate Settled(start: Cell, obstacles: seq<Cell>, closed: seq<Cell>, g: map<Cell, nat>)
  {
    forall c, p :: c in closed && IsWalk(p, start, c, obstacles) ==> c in g && g[c] <= |p| - 1
  }

  /** The parts of the invariant that hold at every step, even mid-expansion. */
  ghost predicate Bookkeeping(start: Cell, end: Cell, obstacles: seq<Cell>, open: seq<Cell>, closed: seq<Cell>,
                              cameFrom: map<Cell, Cell>, g: map<Cell, nat>, f: map<Cell, nat>)
  {
    Scored(end, open, closed, g, f) && Separate(open, closed) && Rooted(start, open, closed, g) &&
    Confined(start, obstacles, open, closed) && Parents(start, obstacles, closed, cameFrom, g) &&
    Linked(start, open, closed, cameFrom) && end !in closed && Settled(start, obstacles, closed, g)
  }

  /** The invariant of findPath's main loop. */
  ghost predicate SearchInv(start: Cell, end: Cell, obstacles: seq<Cell>, open: seq<Cell>, closed: seq<Cell>,
                            cameFrom: map<Cell, Cell>, g: map<Cell, nat>, f: map<Cell, nat>)
  {
    Bookkeeping(start, end, obstacles, open, closed, cameFrom, g, f) && Covered(obstacles, open, closed, g, closed)
  }

  /** The state while the neighbours of `current`, the cell closed last, are
      examined; `done` are the neighbours already handled. */
  ghost predicate Expanding(start: Cell, end: Cell, obstacles: seq<Cell>, open: seq<Cell>, closed: seq<Cell>,
                            cameFrom: map<Cell, Cell>, g: map<Cell, nat>, f: map<Cell, nat>,
                            current: Cell, done: seq<Cell>)
  {
    |closed| > 0 && closed[|closed| - 1] == current &&
    Bookkeeping(start, end, obstacles, open, closed, cameFrom, g, f) &&
    Covered(obstacles, open, closed, g, closed[..|closed| - 1]) &&
    forall n :: n in done ==> n in closed || (n in open && n in g && current in g && g[n] <= g[current] + 1)
  }

  // ---------------------------------------------------------------------------
  // Lemmas about the invariant

  /** A walk that starts inside `closed` and ends outside it leaves it at some step. */
  lemma FirstOutside(p: seq<Cell>, closed: seq<Cell>) returns (k: nat)
    requires |p| > 0 && p[0] in closed && p[|p| - 1] !in closed
    ensures 0 < k < |p| && p[k - 1] in closed && p[k] !in closed
  {
    k := 1;
    while p[k] in closed
      invariant 0 < k < |p| && p[k - 1] in closed
      decreases |p| - k
    {
      k := k + 1;
    }
  }

  /** A walk step from a cell enters one of that cell's neighbours. */
  lemma WalkStepIsNeighbor(p: seq<Cell>, k: nat, from: Cell, to: Cell, obstacles: seq<Cell>)
    requires IsWalk(p, from, to, obstacles) && 0 < k < |p|
    ensures p[k] in Neighbors(p[k - 1], obstacles)
  {
    assert StepAt(p, k);
    NeighborsSpec(p[k - 1], obstacles);
  }

  /** One walk: the cell popped with the lowest f-score is not beaten by it. */
  lemma PopBound(start: Cell, end: Cell, obstacles: seq<Cell>, open: seq<Cell>, closed: seq<Cell>,
                 cameFrom: map<Cell, Cell>, g: map<Cell, nat>, f: map<Cell, nat>, idx: nat, p: seq<Cell>)
    requires SearchInv(start, end, obstacles, open, closed, cameFrom, g, f)
    requires idx < |open| && forall j :: 0 <= j < |open| ==> f[open[idx]] <= f[open[j]]
    requires IsWalk(p, start, open[idx], obstacles)
    ensures g[open[idx]] <= |p| - 1
  {
    var current := open[idx];
    if closed == [] {
      assert current == start;
    } else {
      var k := FirstOutside(p, closed);
      WalkPrefix(p, k, start, current, obstacles);
      assert g[p[k - 1]] <= k - 1;
      WalkStepIsNeighbor(p, k, start, current, obstacles);
      assert p[k] in open && g[p[k]] <= k;
      HeuristicDrift(p, k, end);
      var j :| 0 <= j < |open| && open[j] == p[k];
      assert f[current] <= f[p[k]];
    }
  }

  /** The A* argument: with a consistent heuristic the popped cell is settled. */
  lemma PopIsOptimal(start: Cell, end: Cell, obstacles: seq<Cell>, open: seq<Cell>, closed: seq<Cell>,
                     cameFrom: map<Cell, Cell>, g: map<Cell, nat>, f: map<Cell, nat>, idx: nat)
    requires SearchInv(start, end, obstacles, open, closed, cameFrom, g, f)
    requires idx < |open| && forall j :: 0 <= j < |open| ==> f[open[idx]] <= f[open[j]]
    ensures forall p :: IsWalk(p, start, open[idx], obstacles) ==> g[open[idx]] <= |p| - 1
  {
    forall p | IsWalk(p, start, open[idx], obstacles)
      ensures g[open[idx]] <= |p| - 1
    {
      PopBound(start, end, obstacles, open, closed, cameFrom, g, f, idx, p);
    }
  }

  /** Moving the popped cell from the open to the closed list starts its expansion. */
  lemma CloseCurrent(start: Cell, end: Cell, obstacles: seq<Cell>, open: seq<Cell>, closed: seq<Cell>,
                     cameFrom: map<Cell, Cell>, g: map<Cell, nat>, f: map<Cell, nat>, idx: nat)
    requires SearchInv(start, end, obstacles, open, closed, cameFrom, g, f)
    requires idx < |open| && open[idx] != end
    requires forall p :: IsWalk(p, start, open[idx], obstacles) ==> g[open[idx]] <= |p| - 1
    ensures Expanding(start, end, obstacles, RemoveAt(open, idx), closed + [open[idx]], cameFrom, g, f, open[idx], [])
  {
    var open', closed' := RemoveAt(open, idx), closed + [open[idx]];
    CloseKeepsLists(start, end, obstacles, open, closed, cameFrom, g, f, idx);
    CloseKeepsLinks(start, end, obstacles, open, closed, cameFrom, g, f, idx);
    CloseKeepsDistances(start, end, obstacles, open, closed, cameFrom, g, f, idx);
    assert closed'[..|closed'| - 1] == closed;
  }

  lemma CloseKeepsLists(start: Cell, end: Cell, obstacles: seq<Cell>, open: seq<Cell>, closed: seq<Cell>,
                        cameFrom: map<Cell, Cell>, g: map<Cell, nat>, f: map<Cell, nat>, idx: nat)
    requires SearchInv(start, end, obstacles, open, closed, cameFrom, g, f)
    requires idx < |open| && open[idx] != end
    ensures var open', closed' := RemoveAt(open, idx), closed + [open[idx]];
      Scored(end, open', closed', g, f) && Separate(open', closed') && Rooted(start, open', closed', g) &&
      Confined(start, obstacles, open', closed') && end !in closed'
  {
    RemoveAtSeparate(open, idx);
  }

  lemma CloseKeepsLinks(start: Cell, end: Cell, obstacles: seq<Cell>, open: seq<Cell>, closed: seq<Cell>,
                        cameFrom: map<Cell, Cell>, g: map<Cell, nat>, f: map<Cell, nat>, idx: nat)
    requires SearchInv(start, end, obstacles, open, closed, cameFrom, g, f)
    requires idx < |open|
    ensures var open', closed' := RemoveAt(open, idx), closed + [open[idx]];
      Parents(start, obstacles, closed', cameFrom, g) && Linked(start, open', closed', cameFrom)
  {
  }

  lemma CloseKeepsDistances(start: Cell, end: Cell, obstacles: seq<Cell>, open: seq<Cell>, closed: seq<Cell>,
                            cameFrom: map<Cell, Cell>, g: map<Cell, nat>, f: map<Cell, nat>, idx: nat)
    requires SearchInv(start, end, obstacles, open, closed, cameFrom, g, f)
    requires idx < |open|
    requires forall p :: IsWalk(p, start, open[idx], obstacles) ==> g[open[idx]] <= |p| - 1
    ensures var open', closed' := RemoveAt(open, idx), closed + [open[idx]];
      Covered(obstacles, open', closed', g, closed) && Settled(start, obstacles, closed', g)
  {
    CloseKeepsCovered(obstacles, open, closed, g, idx);
    CloseKeepsSettled(start, obstacles, closed, g, open[idx]);
  }

  lemma CloseKeepsCovered(obstacles: seq<Cell>, open: seq<Cell>, closed: seq<Cell>, g: map<Cell, nat>, idx: nat)
    requires Covered(obstacles, open, closed, g, closed) && idx < |open|
    ensures Covered(obstacles, RemoveAt(open, idx), closed + [open[idx]], g, closed)
  {
  }

  lemma CloseKeepsSettled(start: Cell, obstacles: seq<Cell>, closed: seq<Cell>, g: map<Cell, nat>, c: Cell)
    requires Settled(start, obstacles, closed, g) && c in g
    requires forall p :: IsWalk(p, start, c, obstacles) ==> g[c] <= |p| - 1
    ensures Settled(start, obstacles, closed + [c], g)
  {
  }

  /** Splicing a cell out of a list without repeats leaves no copy of it behind. */
  lemma RemoveAtSeparate(s: seq<Cell>, idx: nat)
    requires idx < |s| && NoDuplicates(s)
    ensures NoDuplicates(RemoveAt(s, idx)) && s[idx] !in RemoveAt(s, idx)
  {
    var r := RemoveAt(s, idx);
    assert forall i :: 0 <= i < |r| ==> r[i] == s[if i < idx then i else i + 1];
  }

  /** Once the open list is empty the goal cannot be reached at all. */
  lemma ExhaustedMeansUnreachable(start: Cell, end: Cell, obstacles: seq<Cell>, closed: seq<Cell>,
                                  cameFrom: map<Cell, Cell>, g: map<Cell, nat>, f: map<Cell, nat>)
    requires SearchInv(start, end, obstacles, [], closed, cameFrom, g, f)
    ensures !Reachable(start, end, obstacles)
  {
    WalksStayClosed(start, obstacles, closed, g);
  }

  /** With the open list empty the closed cells trap every walk from the start. */
  lemma WalksStayClosed(start: Cell, obstacles: seq<Cell>, closed: seq<Cell>, g: map<Cell, nat>)
    requires Rooted(start, [], closed, g) && Covered(obstacles, [], closed, g, closed)
    ensures forall p, to :: IsWalk(p, start, to, obstacles) ==> to in closed
  {
    forall p, to | IsWalk(p, start, to, obstacles)
      ensures to in closed
    {
      if to !in closed {
        var k := FirstOutside(p, closed);
        WalkStepIsNeighbor(p, k, start, to, obstacles);
        assert false;
      }
    }
  }

  /** A neighbour that is closed, or open with a score no worse than the step
      through `current` would give, is left as it is. */
  lemma SkipNeighbor(start: Cell, end: Cell, obstacles: seq<Cell>, open: seq<Cell>, closed: seq<Cell>,
                     cameFrom: map<Cell, Cell>, g: map<Cell, nat>, f: map<Cell, nat>,
                     current: Cell, done: seq<Cell>, n: Cell)
    requires Expanding(start, end, obstacles, open, closed, cameFrom, g, f, current, done)
    requires n in closed || (n in open && n in g && current in g && g[n] <= g[current] + 1)
    ensures Expanding(start, end, obstacles, open, closed, cameFrom, g, f, current, done + [n])
  {
  }

  /** The state after neighbour `n` of `current` is opened (if new) and given
      `current` as parent and g-score g[current] + 1. */
  ghost predicate Recorded(end: Cell, open: seq<Cell>, cameFrom: map<Cell, Cell>, g: map<Cell, nat>, f: map<Cell, nat>,
                           current: Cell, n: Cell,
                           open': seq<Cell>, cameFrom': map<Cell, Cell>, g': map<Cell, nat>, f': map<Cell, nat>)
    requires current in g
  {
    open' == (if n in open then open else open + [n]) &&
    cameFrom' == cameFrom[n := current] &&
    g' == g[n := g[current] + 1] &&
    f' == f[n := g[current] + 1 + Heuristic(n, end)]
  }

  /** The conditions under which script.js lines 269-279 record `current` as the parent of `n`. */
  ghost predicate Improves(obstacles: seq<Cell>, open: seq<Cell>, closed: seq<Cell>, g: map<Cell, nat>, current: Cell, n: Cell)
  {
    n in Neighbors(current, obstacles) && Better(open, closed, g, current, n)
  }

  /** `n` is not closed, and is new or its score (a missing or zero one counting
      as infinite) is beaten by the step through `current`. */
  ghost predicate Better(open: seq<Cell>, closed: seq<Cell>, g: map<Cell, nat>, current: Cell, n: Cell)
  {
    n !in closed && current in g && (n in open && n in g ==> g[n] == 0 || g[current] + 1 < g[n])
  }

  /** Recording a better parent for a neighbour keeps the invariant. */
  lemma RecordNeighbor(start: Cell, end: Cell, obstacles: seq<Cell>, open: seq<Cell>, closed: seq<Cell>,
                       cameFrom: map<Cell, Cell>, g: map<Cell, nat>, f: map<Cell, nat>,
                       current: Cell, done: seq<Cell>, n: Cell,
                       open': seq<Cell>, cameFrom': map<Cell, Cell>, g': map<Cell, nat>, f': map<Cell, nat>)
    requires Expanding(start, end, obstacles, open, closed, cameFrom, g, f, current, done)
    requires Improves(obstacles, open, closed, g, current, n)
    requires Recorded(end, open, cameFrom, g, f, current, n, open', cameFrom', g', f')
    ensures Expanding(start, end, obstacles, open', closed, cameFrom', g', f', current, done + [n])
  {
    NeighborsSpec(current, obstacles);
    assert Passable(n, obstacles) && Adjacent(current, n);
    assert n != start && current != n;
    if n in open {
      assert n in cameFrom && cameFrom[n] in g;
    }
    RecordKeepsScored(end, open, closed, g, f, current, n);
    RecordKeepsSeparate(open, closed, n);
    RecordKeepsParents(start, obstacles, closed, cameFrom, g, current, n);
    RecordKeepsCovered(obstacles, open, closed, g, closed[..|closed| - 1], current, n);
    RecordKeepsDone(open, closed, g, current, done, n);
  }

  lemma RecordKeepsScored(end: Cell, open: seq<Cell>, closed: seq<Cell>, g: map<Cell, nat>, f: map<Cell, nat>,
                          current: Cell, n: Cell)
    requires Scored(end, open, closed, g, f) && current in g
    ensures Scored(end, if n in open then open else open + [n], closed,
                   g[n := g[current] + 1], f[n := g[current] + 1 + Heuristic(n, end)])
  {
  }

  lemma RecordKeepsSeparate(open: seq<Cell>, closed: seq<Cell>, n: Cell)
    requires Separate(open, closed) && n !in closed
    ensures Separate(if n in open then open else open + [n], closed)
  {
  }

  lemma RecordKeepsParents(start: Cell, obstacles: seq<Cell>, closed: seq<Cell>, cameFrom: map<Cell, Cell>,
                           g: map<Cell, nat>, current: Cell, n: Cell)
    requires Parents(start, obstacles, closed, cameFrom, g)
    requires current in closed && current in g && n !in closed && n != start
    requires Passable(n, obstacles) && Adjacent(current, n)
    ensures Parents(start, obstacles, closed, cameFrom[n := current], g[n := g[current] + 1])
  {
  }

  lemma RecordKeepsCovered(obstacles: seq<Cell>, open: seq<Cell>, closed: seq<Cell>, g: map<Cell, nat>,
                           expanded: seq<Cell>, current: Cell, n: Cell)
    requires Covered(obstacles, open, closed, g, expanded)
    requires forall c :: c in expanded ==> c in closed
    requires n !in closed && current in g
    requires n in open ==> n in g && g[current] + 1 < g[n]
    ensures Covered(obstacles, if n in open then open else open + [n], closed, g[n := g[current] + 1], expanded)
  {
  }

  lemma RecordKeepsDone(open: seq<Cell>, closed: seq<Cell>, g: map<Cell, nat>, current: Cell, done: seq<Cell>, n: Cell)
    requires forall m :: m in done ==> m in closed || (m in open && m in g && current in g && g[m] <= g[current] + 1)
    requires current in closed && current in g && n !in closed
    ensures var open', g' := (if n in open then open else open + [n]), g[n := g[current] + 1];
      forall m :: m in done + [n] ==> m in closed || (m in open' && m in g' && current in g' && g'[m] <= g'[current] + 1)
  {
  }

  /** After the last neighbour, `current` is covered like every other closed cell. */
  lemma ExpansionDone(start: Cell, end: Cell, obstacles: seq<Cell>, open: seq<Cell>, closed: seq<Cell>,
                      cameFrom: map<Cell, Cell>, g: map<Cell, nat>, f: map<Cell, nat>, current: Cell)
    requires Expanding(start, end, obstacles, open, closed, cameFrom, g, f, current, Neighbors(current, obstacles))
    ensures SearchInv(start, end, obstacles, open, closed, cameFrom, g, f)
  {
    forall c | c in closed
      ensures c in closed[..|closed| - 1] || c == current
    {
      var i :| 0 <= i < |closed| && closed[i] == c;
      if i < |closed| - 1 {
        assert closed[..|closed| - 1][i] == c;
      }
    }
  }

  /** The open list and the three dictionaries of findPath, as one value. */
  datatype SearchState = SearchState(open: seq<Cell>, cameFrom: map<Cell, Cell>, g: map<Cell, nat>, f: map<Cell, nat>)

  /** script.js lines 259-279 for one neighbour `n` of `current`: a closed
      neighbour, or an open one whose score (a missing or zero one counting as
      infinite) the step through `current` does not beat, is skipped; otherwise
      `n` is opened if new and given `current` as parent and g-score
      g[current] + 1. */
  ghost function ExamineOne(end: Cell, closed: seq<Cell>, s: SearchState, current: Cell, n: Cell): (r: SearchState)
    requires current in s.g
    ensures current in r.g
  {
    if n in closed then s
    else if n in s.open && n in s.g && s.g[n] != 0 && s.g[current] + 1 >= s.g[n] then s
    else SearchState(if n in s.open then s.open else s.open + [n], s.cameFrom[n := current],
               s.g[n := s.g[current] + 1], s.f[n := s.g[current] + 1 + Heuristic(n, end)])
  }

  /** The state after the neighbours `ns` of `current` were examined in order. */
  ghost function ExamineAll(end: Cell, closed: seq<Cell>, s: SearchState, current: Cell, ns: seq<Cell>): (r: SearchState)
    requires current in s.g
    ensures current in r.g
  {
    if ns == [] then s
    else ExamineOne(end, closed, ExamineAll(end, closed, s, current, ns[..|ns| - 1]), current, ns[|ns| - 1])
  }

  /** Examining one more neighbour of `current` keeps the expansion invariant. */
  lemma ExpandStep(start: Cell, end: Cell, obstacles: seq<Cell>, closed: seq<Cell>, r: SearchState,
                   current: Cell, done: seq<Cell>, n: Cell)
    requires Expanding(start, end, obstacles, r.open, closed, r.cameFrom, r.g, r.f, current, done)
    requires n in Neighbors(current, obstacles)
    ensures current in r.g
    ensures var r' := ExamineOne(end, closed, r, current, n);
      Expanding(start, end, obstacles, r'.open, closed, r'.cameFrom, r'.g, r'.f, current, done + [n])
  {
    assert current in closed;
    if n in closed || (n in r.open && n in r.g && r.g[n] != 0 && r.g[current] + 1 >= r.g[n]) {
      ExpandSkipped(start, end, obstacles, closed, r, current, done, n);
    } else {
      ExpandRecorded(start, end, obstacles, closed, r, current, done, n);
    }
  }

  /** A skipped neighbour leaves the state, and so the expansion invariant, as it was. */
  lemma ExpandSkipped(start: Cell, end: Cell, obstacles: seq<Cell>, closed: seq<Cell>, r: SearchState,
                      current: Cell, done: seq<Cell>, n: Cell)
    requires Expanding(start, end, obstacles, r.open, closed, r.cameFrom, r.g, r.f, current, done)
    requires n in Neighbors(current, obstacles) && current in r.g
    requires n in closed || (n in r.open && n in r.g && r.g[n] != 0 && r.g[current] + 1 >= r.g[n])
    ensures var r' := ExamineOne(end, closed, r, current, n);
      Expanding(start, end, obstacles, r'.open, closed, r'.cameFrom, r'.g, r'.f, current, done + [n])
  {
    assert ExamineOne(end, closed, r, current, n) == r;
    SkipNeighbor(start, end, obstacles, r.open, closed, r.cameFrom, r.g, r.f, current, done, n);
  }

  /** A recorded neighbour keeps the expansion invariant. */
  lemma ExpandRecorded(start: Cell, end: Cell, obstacles: seq<Cell>, closed: seq<Cell>, r: SearchState,
                       current: Cell, done: seq<Cell>, n: Cell)
    requires Expanding(start, end, obstacles, r.open, closed, r.cameFrom, r.g, r.f, current, done)
    requires n in Neighbors(current, obstacles) && current in r.g && n !in closed
    requires !(n in r.open && n in r.g && r.g[n] != 0 && r.g[current] + 1 >= r.g[n])
    ensures var r' := ExamineOne(end, closed, r, current, n);
      Expanding(start, end, obstacles, r'.open, closed, r'.cameFrom, r'.g, r'.f, current, done + [n])
  {
    var r' := ExamineOne(end, closed, r, current, n);
    assert Recorded(end, r.open, r.cameFrom, r.g, r.f, current, n, r'.open, r'.cameFrom, r'.g, r'.f) by {
      ExamineOneRecords(end, closed, r, current, n);
    }
    assert Improves(obstacles, r.open, closed, r.g, current, n);
    RecordNeighbor(start, end, obstacles, r.open, closed, r.cameFrom, r.g, r.f, current, done, n,
                   r'.open, r'.cameFrom, r'.g, r'.f);
  }

  /** A neighbour that is not closed and whose score the step improves is
      opened, given `current` as parent and scored through it. */
  lemma ExamineOneRecords(end: Cell, closed: seq<Cell>, r: SearchState, current: Cell, n: Cell)
    requires current in r.g && n !in closed
    requires !(n in r.open && n in r.g && r.g[n] != 0 && r.g[current] + 1 >= r.g[n])
    ensures ExamineOne(end, closed, r, current, n) ==
              SearchState(if n in r.open then r.open else r.open + [n], r.cameFrom[n := current], r.g[n := r.g[current] + 1],
                    r.f[n := r.g[current] + 1 + Heuristic(n, end)])
  {
  }

  /** Examining the neighbours `ns` of `current` one by one keeps the expansion invariant. */
  lemma {:induction false} ExamineAllKeeps(start: Cell, end: Cell, obstacles: seq<Cell>, closed: seq<Cell>, s: SearchState,
                                           current: Cell, ns: seq<Cell>)
    requires Expanding(start, end, obstacles, s.open, closed, s.cameFrom, s.g, s.f, current, [])
    requires forall n :: n in ns ==> n in Neighbors(current, obstacles)
    ensures current in s.g
    ensures var r := ExamineAll(end, closed, s, current, ns);
      Expanding(start, end, obstacles, r.open, closed, r.cameFrom, r.g, r.f, current, ns)
  {
    assert current in closed;
    if ns != [] {
      var front, n := ns[..|ns| - 1], ns[|ns| - 1];
      assert ns == front + [n];
      assert forall m :: m in front ==> m in ns;
      ExamineAllKeeps(start, end, obstacles, closed, s, current, front);
      var r := ExamineAll(end, closed, s, current, front);
      ExpandStep(start, end, obstacles, closed, r, current, front, n);
      ExamineAllSnoc(end, closed, s, current, front, n);
    }
  }

  /** The state script.js lines 268-279 leave behind is the one ExamineOne describes. */
  lemma RecordedStep(end: Cell, closed: seq<Cell>, open: seq<Cell>, cameFrom: map<Cell, Cell>, g: map<Cell, nat>,
                     f: map<Cell, nat>, current: Cell, n: Cell, tentative: int, open': seq<Cell>)
    requires current in g && n !in closed && tentative == g[current] + 1
    requires !(n in open && n in g && g[n] != 0 && tentative >= g[n])
    requires open' == if n in open then open else open + [n]
    ensures SearchState(open', cameFrom[n := current], g[n := tentative], f[n := tentative + Heuristic(n, end)])
            == ExamineOne(end, closed, SearchState(open, cameFrom, g, f), current, n)
  {
  }

  /** Examining one more neighbour is one more ExamineOne step. */
  lemma ExamineAllSnoc(end: Cell, closed: seq<Cell>, s: SearchState, current: Cell, ns: seq<Cell>, n: Cell)
    requires current in s.g
    ensures ExamineAll(end, closed, s, current, ns + [n]) == ExamineOne(end, closed, ExamineAll(end, closed, s, current, ns), current, n)
  {
    assert (ns + [n])[..|ns|] == ns;
  }

  /** The cells of `ns`, in order, that the expansion appends to the open
      list: those neither closed nor already open. */
  ghost function NewCells(ns: seq<Cell>, open: seq<Cell>, closed: seq<Cell>): seq<Cell>
  {
    if ns == [] then []
    else
      var n := ns[|ns| - 1];
      NewCells(ns[..|ns| - 1], open, closed) + (if n in closed || n in open then [] else [n])
  }

  /** A cell is appended exactly when it is one of `ns` and neither closed nor open. */
  lemma {:induction false} NewCellsMembers(ns: seq<Cell>, open: seq<Cell>, closed: seq<Cell>)
    ensures forall c :: c in NewCells(ns, open, closed) <==> c in ns && c !in closed && c !in open
  {
    if ns != [] {
      NewCellsMembers(ns[..|ns| - 1], open, closed);
      assert ns == ns[..|ns| - 1] + [ns[|ns| - 1]];
    }
  }

  /** `m` and `m'` agree at `c`: both lack it, or both map it to the same value. */
  ghost predicate SameAt<V>(m: map<Cell, V>, m': map<Cell, V>, c: Cell)
  {
    (c in m <==> c in m') && (c in m ==> m'[c] == m[c])
  }

  /** The state `r` after the neighbours `done` of `current` were examined,
      set against the state `s` before: the new ones are appended to the open
      list in order, and parent and scores change exactly at the neighbours
      whose g-score the step through `current` improves. */
  ghost predicate Examined(end: Cell, closed: seq<Cell>, s: SearchState, current: Cell, done: seq<Cell>, r: SearchState)
    requires current in s.g
  {
    r.open == s.open + NewCells(done, s.open, closed) &&
    RecordedAt(end, closed, s, current, done, r) && KeptElsewhere(closed, s, current, done, r)
  }

  /** Each improved neighbour has `current` as parent and the scores through it. */
  ghost predicate RecordedAt(end: Cell, closed: seq<Cell>, s: SearchState, current: Cell, done: seq<Cell>, r: SearchState)
    requires current in s.g
  {
    forall c :: c in done && Better(s.open, closed, s.g, current, c) ==>
      c in r.cameFrom && r.cameFrom[c] == current && c in r.g && r.g[c] == s.g[current] + 1 &&
      c in r.f && r.f[c] == s.g[current] + 1 + Heuristic(c, end)
  }

  /** Every other cell keeps its parent and scores. */
  ghost predicate KeptElsewhere(closed: seq<Cell>, s: SearchState, current: Cell, done: seq<Cell>, r: SearchState)
  {
    forall c :: !(c in done && Better(s.open, closed, s.g, current, c)) ==>
      SameAt(s.cameFrom, r.cameFrom, c) && SameAt(s.g, r.g, c) && SameAt(s.f, r.f, c)
  }

  /** A neighbour not yet examined is open now exactly when it was open
      before, with the g-score it had; the closed `current` keeps its score. */
  lemma ExaminedBefore(end: Cell, closed: seq<Cell>, s: SearchState, current: Cell, done: seq<Cell>, r: SearchState, n: Cell)
    requires current in closed && current in s.g
    requires Examined(end, closed, s, current, done, r)
    requires n !in done
    ensures n in r.open <==> n in s.open
    ensures SameAt(s.g, r.g, n) && current in r.g && r.g[current] == s.g[current]
  {
    NewCellsMembers(done, s.open, closed);
    assert SameAt(s.g, r.g, n) && SameAt(s.g, r.g, current);
  }

  /** Examining one more neighbour, one not examined before, changes the
      state at that neighbour only, and only if the step improves it. */
  lemma ExamineNext(end: Cell, closed: seq<Cell>, s: SearchState, current: Cell, done: seq<Cell>, r: SearchState, n: Cell)
    requires current in closed && current in s.g
    requires Examined(end, closed, s, current, done, r)
    requires n !in done
    ensures current in r.g && Examined(end, closed, s, current, done + [n], ExamineOne(end, closed, r, current, n))
  {
    ExaminedBefore(end, closed, s, current, done, r, n);
    if Better(s.open, closed, s.g, current, n) {
      ExamineImproved(end, closed, s, current, done, r, n);
    } else {
      assert ExamineOne(end, closed, r, current, n) == r;
      assert (done + [n])[..|done|] == done;
      assert NewCells(done + [n], s.open, closed) == NewCells(done, s.open, closed);
    }
  }

  /** An improved neighbour is opened if new, and only its parent and scores change. */
  lemma ExamineImproved(end: Cell, closed: seq<Cell>, s: SearchState, current: Cell, done: seq<Cell>, r: SearchState, n: Cell)
    requires current in closed && current in s.g
    requires Examined(end, closed, s, current, done, r)
    requires n !in done && Better(s.open, closed, s.g, current, n)
    requires n in r.open <==> n in s.open
    requires SameAt(s.g, r.g, n) && current in r.g && r.g[current] == s.g[current]
    ensures Examined(end, closed, s, current, done + [n], ExamineOne(end, closed, r, current, n))
  {
    var t := s.g[current] + 1;
    var r' := SearchState(if n in r.open then r.open else r.open + [n], r.cameFrom[n := current], r.g[n := t],
                    r.f[n := t + Heuristic(n, end)]);
    assert r'.open == s.open + NewCells(done + [n], s.open, closed) by {
      AppendedNext(closed, s, done, r.open, n, r'.open);
    }
    assert RecordedAt(end, closed, s, current, done + [n], r') by {
      RecordedAtNext(end, closed, s, current, done, r, n, r');
    }
    assert KeptElsewhere(closed, s, current, done + [n], r') by {
      KeptElsewhereNext(closed, s, current, done, r, n, r', t, t + Heuristic(n, end));
    }
    assert ExamineOne(end, closed, r, current, n) == r';
  }

  /** The open list grows by the neighbour exactly when it was not open before. */
  lemma AppendedNext(closed: seq<Cell>, s: SearchState, done: seq<Cell>, open: seq<Cell>, n: Cell, open': seq<Cell>)
    requires open == s.open + NewCells(done, s.open, closed) && n !in closed
    requires n in open <==> n in s.open
    requires open' == if n in open then open else open + [n]
    ensures open' == s.open + NewCells(done + [n], s.open, closed)
  {
    assert (done + [n])[..|done|] == done;
  }

  /** Recording the neighbour keeps every earlier improved neighbour's entries. */
  lemma RecordedAtNext(end: Cell, closed: seq<Cell>, s: SearchState, current: Cell, done: seq<Cell>, r: SearchState, n: Cell, r': SearchState)
    requires current in s.g && RecordedAt(end, closed, s, current, done, r)
    requires r'.cameFrom == r.cameFrom[n := current] && r'.g == r.g[n := s.g[current] + 1]
    requires r'.f == r.f[n := s.g[current] + 1 + Heuristic(n, end)]
    ensures RecordedAt(end, closed, s, current, done + [n], r')
  {
    forall c | c in done + [n] && Better(s.open, closed, s.g, current, c)
      ensures c in r'.cameFrom && r'.cameFrom[c] == current && c in r'.g && r'.g[c] == s.g[current] + 1 &&
              c in r'.f && r'.f[c] == s.g[current] + 1 + Heuristic(c, end)
    {
      if c != n {
        assert c in done;
      }
    }
  }

  /** Recording the neighbour changes the dictionaries at that neighbour only. */
  lemma KeptElsewhereNext(closed: seq<Cell>, s: SearchState, current: Cell, done: seq<Cell>, r: SearchState, n: Cell,
                          r': SearchState, tg: nat, tf: nat)
    requires KeptElsewhere(closed, s, current, done, r) && Better(s.open, closed, s.g, current, n)
    requires r'.cameFrom == r.cameFrom[n := current] && r'.g == r.g[n := tg] && r'.f == r.f[n := tf]
    ensures KeptElsewhere(closed, s, current, done + [n], r')
  {
    forall c | !(c in done + [n] && Better(s.open, closed, s.g, current, c))
      ensures SameAt(s.cameFrom, r'.cameFrom, c) && SameAt(s.g, r'.g, c) && SameAt(s.f, r'.f, c)
    {
      assert c != n && !(c in done && Better(s.open, closed, s.g, current, c));
      assert SameAt(s.cameFrom, r.cameFrom, c) && SameAt(s.g, r.g, c) && SameAt(s.f, r.f, c);
    }
  }

  /** The neighbours of `current`, each listed once, examined in order:
      the new ones are appended to the open list in their order, and parent
      and scores change exactly where the step through `current` improves
      the g-score. */
  lemma {:induction false} ExamineAllEffect(end: Cell, closed: seq<Cell>, s: SearchState, current: Cell, ns: seq<Cell>)
    requires current in closed && current in s.g
    requires forall i, j :: 0 <= i < j < |ns| ==> ns[i] != ns[j]
    ensures Examined(end, closed, s, current, ns, ExamineAll(end, closed, s, current, ns))
  {
    if ns == [] {
      assert s.open + [] == s.open;
    } else {
      var front, n := ns[..|ns| - 1], ns[|ns| - 1];
      ExamineAllEffect(end, closed, s, current, front);
      assert n !in front;
      assert front + [n] == ns;
      ExamineNext(end, closed, s, current, front, ExamineAll(end, closed, s, current, front), n);
    }
  }

  /** What the expansion of `current` did to the open list and the dictionaries. */
  lemma ExpansionEffect(end: Cell, obstacles: seq<Cell>, open: seq<Cell>, closed: seq<Cell>, cameFrom: map<Cell, Cell>,
                        gScore: map<Cell, nat>, fScore: map<Cell, nat>, current: Cell, neighbors: seq<Cell>,
                        open': seq<Cell>, cameFrom': map<Cell, Cell>, gScore': map<Cell, nat>, fScore': map<Cell, nat>)
    requires neighbors == Neighbors(current, obstacles) && current in closed && current in gScore
    requires SearchState(open', cameFrom', gScore', fScore') == ExamineAll(end, closed, SearchState(open, cameFrom, gScore, fScore), current, neighbors)
    ensures open' == open + NewCells(neighbors, open, closed)
    ensures forall c :: c in neighbors && Better(open, closed, gScore, current, c) ==>
              c in cameFrom' && cameFrom'[c] == current && c in gScore' && gScore'[c] == gScore[current] + 1 &&
              c in fScore' && fScore'[c] == gScore'[c] + Heuristic(c, end)
    ensures forall c :: !(c in neighbors && Better(open, closed, gScore, current, c)) ==>
              SameAt(cameFrom, cameFrom', c) && SameAt(gScore, gScore', c) && SameAt(fScore, fScore', c)
  {
    NeighborsDistinct(current, obstacles);
    ExamineAllEffect(end, closed, SearchState(open, cameFrom, gScore, fScore), current, neighbors);
  }

  /** The search state findPath starts from. */
  lemma InitialSearch(start: Cell, end: Cell, obstacles: seq<Cell>)
    ensures SearchInv(start, end, obstacles, [start], [], map[], map[start := 0], map[start := Heuristic(start, end)])
  {
  }

  /** Closing a new cell of the search space shrinks what is left of it. */
  lemma ClosingShrinks(start: Cell, obstacles: seq<Cell>, closed: seq<Cell>, current: Cell)
    requires current !in closed && (current == start || Passable(current, obstacles))
    ensures Space(start) - Elems(closed + [current]) < Space(start) - Elems(closed)
  {
    InSpace(start, current, obstacles);
    assert Elems(closed + [current]) == Elems(closed) + {current};
  }

  /** The path rebuilt at the goal has g[end] + 1 cells, which no walk undercuts. */
  lemma GoalPath(start: Cell, end: Cell, obstacles: seq<Cell>, path: seq<Cell>, gEnd: nat)
    requires IsWalk(path, start, end, obstacles) && |path| == gEnd + 1
    requires forall p :: IsWalk(p, start, end, obstacles) ==> gEnd <= |p| - 1
    ensures ShortestPathOrNone(start, end, obstacles, path)
    ensures start == end ==> path == [start]
  {
    if start == end {
      SameCellPath(start, obstacles, path);
    }
  }

  /** The search space is finite and holds every cell the search touches. */
  lemma InSpace(start: Cell, n: Cell, obstacles: seq<Cell>)
    requires n == start || Passable(n, obstacles)
    ensures n in Space(start)
  {
    if n != start {
      assert n == Cell(n.row, n.col);
    }
  }

  // ---------------------------------------------------------------------------
  // findPath

  /** script.js lines 219-232: the first open cell with the lowest f-score (ties go to
      the lowest index, since only a strictly smaller score replaces it). */
  method SelectLowest(open: seq<Cell>, fScore: map<Cell, nat>) returns (current: Cell, lowestIndex: nat)
    requires |open| > 0 && forall n :: n in open ==> n in fScore
    ensures lowestIndex < |open| && current == open[lowestIndex]
    ensures forall j :: 0 <= j < |open| ==> fScore[current] <= fScore[open[j]]
    ensures forall j :: 0 <= j < lowestIndex ==> fScore[current] < fScore[open[j]]
  {
    current, lowestIndex := open[0], 0;
    for i := 1 to |open|
      invariant lowestIndex < i && current == open[lowestIndex]
      invariant forall j :: 0 <= j < i ==> fScore[current] <= fScore[open[j]]
      invariant forall j :: 0 <= j < lowestIndex ==> fScore[current] < fScore[open[j]]
    {
      var node := open[i];
      if fScore[node] < fScore[current] {
        current, lowestIndex := node, i;
      }
    }
  }

  /** script.js lines 253-280: examines the neighbours of the cell just closed, adding
      new ones to the open list and recording a better parent and score
      where the step through `current` improves the g-score. */
  method ExpandNeighbors(start: Cell, end: Cell, obstacles: seq<Cell>, current: Cell, neighbors: seq<Cell>,
                         open: seq<Cell>, closed: seq<Cell>, cameFrom: map<Cell, Cell>,
                         gScore: map<Cell, nat>, fScore: map<Cell, nat>)
    returns (open': seq<Cell>, cameFrom': map<Cell, Cell>, gScore': map<Cell, nat>, fScore': map<Cell, nat>)
    requires neighbors == Neighbors(current, obstacles)
    requires Expanding(start, end, obstacles, open, closed, cameFrom, gScore, fScore, current, [])
    ensures SearchInv(start, end, obstacles, open', closed, cameFrom', gScore', fScore')
    ensures open' == open + NewCells(neighbors, open, closed)
    ensures forall c :: c in neighbors && Better(open, closed, gScore, current, c) ==>
              c in cameFrom' && cameFrom'[c] == current && c in gScore' && gScore'[c] == gScore[current] + 1 &&
              c in fScore' && fScore'[c] == gScore'[c] + Heuristic(c, end)
    ensures forall c :: !(c in neighbors && Better(open, closed, gScore, current, c)) ==>
              SameAt(cameFrom, cameFrom', c) && SameAt(gScore, gScore', c) && SameAt(fScore, fScore', c)
  {
    ghost var before := SearchState(open, cameFrom, gScore, fScore);
    assert current in closed;
    open', cameFrom', gScore', fScore' := open, cameFrom, gScore, fScore;
    for i := 0 to |neighbors|
      invariant SearchState(open', cameFrom', gScore', fScore') == ExamineAll(end, closed, before, current, neighbors[..i])
    {
      var neighbor := neighbors[i];
      ghost var open0, cameFrom0, gScore0, fScore0 := open', cameFrom', gScore', fScore';
      ExamineAllSnoc(end, closed, before, current, neighbors[..i], neighbor);
      assert neighbors[..i + 1] == neighbors[..i] + [neighbor];
      if neighbor in closed {
        continue;
      }
      var tentativeGScore := gScore'[current] + 1;
      if neighbor !in open' {
        open' := open' + [neighbor];
      } else if neighbor in gScore' && gScore'[neighbor] != 0 && tentativeGScore >= gScore'[neighbor] {
        // `gScore[neighborKey] || Infinity`: a missing or zero score counts as infinite
        continue;
      }
      cameFrom' := cameFrom'[neighbor := current];
      gScore' := gScore'[neighbor := tentativeGScore];
      fScore' := fScore'[neighbor := tentativeGScore + Heuristic(neighbor, end)];
      RecordedStep(end, closed, open0, cameFrom0, gScore0, fScore0, current, neighbor, tentativeGScore, open');
    }
    assert neighbors[..|neighbors|] == neighbors;
    ExamineAllKeeps(start, end, obstacles, closed, before, current, neighbors);
    ExpansionDone(start, end, obstacles, open', closed, cameFrom', gScore', fScore', current);
    ExpansionEffect(end, obstacles, open, closed, cameFrom, gScore, fScore, current, neighbors,
                    open', cameFrom', gScore', fScore');
  }

  /** script.js lines 236-246: follows cameFrom back from the goal to the start and
      reverses the cells collected. */
  method ReconstructPath(start: Cell, obstacles: seq<Cell>, open: seq<Cell>, closed: seq<Cell>,
                         cameFrom: map<Cell, Cell>, gScore: map<Cell, nat>, current: Cell)
    returns (path: seq<Cell>)
    requires Parents(start, obstacles, closed, cameFrom, gScore)
    requires Linked(start, open, closed, cameFrom)
    requires start in gScore && gScore[start] == 0
    requires current in open && current in gScore
    ensures IsWalk(path, start, current, obstacles)
    ensures |path| == gScore[current] + 1
  {
    var back: seq<Cell> := [];
    var temp := current;
    while temp in cameFrom
      invariant temp in open || temp in closed
      invariant temp in gScore && |back| + gScore[temp] == gScore[current]
      invariant back == [] ==> temp == current
      invariant back != [] ==> back[0] == current && Adjacent(back[|back| - 1], temp)
      invariant Chained(back)
      invariant forall i :: 0 <= i < |back| ==> Passable(back[i], obstacles)
      decreases gScore[temp]
    {
      var parent := cameFrom[temp];
      AdjacentSymmetric(parent, temp);
      ChainedSnoc(back, temp);
      back := back + [temp];
      temp := parent;
    }
    assert temp == start;
    ChainedSnoc(back, start);
    back := back + [start];
    path := Reversed(back);
    ReversedChained(back);
  }

  /** findPath: A* search from `start` to `end` around `obstacles`. */
  method FindPath(start: Cell, end: Cell, obstacles: seq<Cell>) returns (path: seq<Cell>)
    ensures ShortestPathOrNone(start, end, obstacles, path)
    ensures start == end ==> path == [start]
  {
    var open := [start];
    var closed: seq<Cell> := [];
    var cameFrom: map<Cell, Cell> := map[];
    var gScore: map<Cell, nat> := map[start := 0];
    var fScore: map<Cell, nat> := map[start := Heuristic(start, end)];
    InitialSearch(start, end, obstacles);
    while |open| > 0
      invariant SearchInv(start, end, obstacles, open, closed, cameFrom, gScore, fScore)
      decreases Space(start) - Elems(closed)
    {
      var current, lowestIndex := SelectLowest(open, fScore);
      PopIsOptimal(start, end, obstacles, open, closed, cameFrom, gScore, fScore, lowestIndex);
      if current == end {
        path := ReconstructPath(start, obstacles, open, closed, cameFrom, gScore, current);
        GoalPath(start, end, obstacles, path, gScore[end]);
        return;
      }
      CloseCurrent(start, end, obstacles, open, closed, cameFrom, gScore, fScore, lowestIndex);
      ClosingShrinks(start, obstacles, closed, current);
      open := RemoveAt(open, lowestIndex);
      closed := closed + [current];
      var neighbors := GetNeighbors(current, obstacles);
      open, cameFrom, gScore, fScore := ExpandNeighbors(start, end, obstacles, current, neighbors,
                                                        open, closed, cameFrom, gScore, fScore);
    }
    ExhaustedMeansUnreachable(start, end, obstacles, closed, cameFrom, gScore, fScore);
    path := [];
  }
}
