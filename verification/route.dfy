/** optimizeRoute: orders the pickup points greedily by Manhattan distance,
    finds a path for each leg with findPath and stitches the legs into one
    route, dropping the cell where two legs meet once. */
module RoutePlanner {
  import opened Grid
  import opened AStar

  // ---------------------------------------------------------------------------
  // The nearest-neighbour order

  /** The index of the first of `unvisited[..n]` with the strictly smallest
      Manhattan distance from `current`: a later point replaces the best one
      so far only when it is strictly closer. */
  function NearestAmong(current: Cell, unvisited: seq<Cell>, n: nat): (i: nat)
    requires 0 < n <= |unvisited|
    ensures i < n
    ensures forall j :: 0 <= j < n ==> Heuristic(current, unvisited[i]) <= Heuristic(current, unvisited[j])
    ensures forall j :: 0 <= j < i ==> Heuristic(current, unvisited[i]) < Heuristic(current, unvisited[j])
  {
    if n == 1 then 0
    else
      var best := NearestAmong(current, unvisited, n - 1);
      if Heuristic(current, unvisited[n - 1]) < Heuristic(current, unvisited[best]) then n - 1 else best
  }

  /** The pickup optimizeRoute goes to next from `current`. */
  function NearestIndex(current: Cell, unvisited: seq<Cell>): (i: nat)
    requires |unvisited| > 0
    ensures i < |unvisited|
    ensures forall j :: 0 <= j < |unvisited| ==> Heuristic(current, unvisited[i]) <= Heuristic(current, unvisited[j])
    ensures forall j :: 0 <= j < i ==> Heuristic(current, unvisited[i]) < Heuristic(current, unvisited[j])
  {
    NearestAmong(current, unvisited, |unvisited|)
  }

  /** The order in which optimizeRoute visits the pickup points: the nearest
      one first, then greedily onwards from there. */
  function GreedyOrder(current: Cell, unvisited: seq<Cell>): (order: seq<Cell>)
    ensures |order| == |unvisited|
    decreases |unvisited|
  {
    if unvisited == [] then []
    else
      var i := NearestIndex(current, unvisited);
      [unvisited[i]] + GreedyOrder(unvisited[i], RemoveAt(unvisited, i))
  }

  /** The greedy order is a permutation of the pickup points: each is
      visited, and as often as it is listed. */
  lemma {:induction false} GreedyOrderPermutes(current: Cell, unvisited: seq<Cell>)
    ensures multiset(GreedyOrder(current, unvisited)) == multiset(unvisited)
    decreases |unvisited|
  {
    if unvisited != [] {
      var i := NearestIndex(current, unvisited);
      GreedyOrderPermutes(unvisited[i], RemoveAt(unvisited, i));
      RemoveAtMultiset(unvisited, i);
    }
  }

  /** Every pickup point occurs in the greedy order, and nothing else does. */
  lemma GreedyVisitsEach(current: Cell, unvisited: seq<Cell>)
    ensures forall p :: p in GreedyOrder(current, unvisited) <==> p in unvisited
  {
    GreedyOrderPermutes(current, unvisited);
    var order := GreedyOrder(current, unvisited);
    forall p
      ensures p in order <==> p in unvisited
    {
      assert p in order <==> p in multiset(order);
    }
  }

  /** The distance still to beat while scanning for the nearest point. */
  datatype Bound = Finite(value: nat) | Infinity

  /** `dist < nearestDist` against a bound that may be JavaScript's
      `Infinity`: every distance is below `Infinity`, and below a finite
      bound exactly when it is smaller. */
  predicate Below(d: nat, bound: Bound): (b: bool)
    ensures b <==> forall e: nat :: bound == Finite(e) ==> d < e
  {
    bound.Infinity? || d < bound.value
  }

  /** script.js lines 337-351: scans the unvisited points for the nearest one. */
  method NearestPickup(currentPoint: Cell, unvisited: seq<Cell>) returns (nearestPoint: Cell, nearestIndex: nat)
    requires |unvisited| > 0
    ensures nearestIndex == NearestIndex(currentPoint, unvisited) && nearestPoint == unvisited[nearestIndex]
  {
    var nearestDist := Infinity;
    var index: int := -1;
    for i := 0 to |unvisited|
      invariant i == 0 <==> index == -1
      invariant i == 0 ==> nearestDist == Infinity
      invariant i > 0 ==> index == NearestAmong(currentPoint, unvisited, i) &&
                          nearestDist == Finite(Heuristic(currentPoint, unvisited[index]))
    {
      var point := unvisited[i];
      var dist := Heuristic(currentPoint, point);
      if Below(dist, nearestDist) {
        nearestDist := Finite(dist);
        index := i;
      }
    }
    nearestIndex := index;
    nearestPoint := unvisited[nearestIndex];
  }

  // ---------------------------------------------------------------------------
  // Stitching the legs

  /** Appends a leg to the route built so far; the route's last cell, where
      the leg starts again, is popped first (script.js lines 358-362 and 371-374). */
  function Join(route: seq<Cell>, leg: seq<Cell>): (r: seq<Cell>)
    ensures route == [] ==> r == leg
    ensures route != [] ==> |r| == |route| - 1 + |leg|
    ensures route != [] && leg != [] && route[|route| - 1] == leg[0] ==>
              r[..|route|] == route && r[|route| - 1..] == leg
    ensures route != [] && leg == [] ==> r + [route[|route| - 1]] == route
  {
    (if |route| > 0 then route[..|route| - 1] else []) + leg
  }

  /** The route made of `legs`, joined one after the other from an empty route. */
  function Stitch(legs: seq<seq<Cell>>): (s: seq<Cell>)
    ensures legs != [] && (forall k :: 0 <= k < |legs| ==> legs[k] != []) ==>
              |s| == 1 + Steps(legs)
  {
    if legs == [] then []
    else
      var front := legs[..|legs| - 1];
      assert forall k :: 0 <= k < |front| ==> front[k] == legs[k];
      Join(Stitch(front), legs[|legs| - 1])
  }

  /** The number of moves in `legs`: each leg of n cells makes n - 1 moves. */
  function Steps(legs: seq<seq<Cell>>): int
  {
    if legs == [] then 0 else Steps(legs[..|legs| - 1]) + |legs[|legs| - 1]| - 1
  }

  /** Joining a walk to `mid` with a walk from `mid` gives one walk; every
      cell of either is kept and the junction is counted once. */
  lemma WalkJoin(route: seq<Cell>, leg: seq<Cell>, from: Cell, mid: Cell, to: Cell, obstacles: seq<Cell>)
    requires IsWalk(route, from, mid, obstacles) && IsWalk(leg, mid, to, obstacles)
    ensures IsWalk(Join(route, leg), from, to, obstacles)
    ensures |Join(route, leg)| == |route| + |leg| - 1
    ensures forall x :: x in route || x in leg ==> x in Join(route, leg)
  {
    var front := route[..|route| - 1];
    var j := Join(route, leg);
    assert j == front + leg;
    forall i | 0 < i < |j|
      ensures StepAt(j, i) && Passable(j[i], obstacles)
    {
      if i < |front| {
        assert StepAt(route, i);
      } else if i == |front| {
        assert StepAt(route, i);
      } else {
        assert StepAt(leg, i - |front|);
      }
    }
    forall x | x in route
      ensures x in j
    {
      if x !in front {
        assert x == route[|route| - 1];
      }
    }
  }

  /** Legs that each walk from one stop to the next stitch into one walk from
      the first stop to the last that passes every stop and makes exactly
      the legs' moves. */
  lemma {:induction false} StitchedWalk(stops: seq<Cell>, legs: seq<seq<Cell>>, obstacles: seq<Cell>)
    requires |legs| > 0 && |stops| == |legs| + 1
    requires forall k :: 0 <= k < |legs| ==> IsWalk(legs[k], stops[k], stops[k + 1], obstacles)
    ensures IsWalk(Stitch(legs), stops[0], stops[|legs|], obstacles)
    ensures |Stitch(legs)| == 1 + Steps(legs)
    ensures forall s :: s in stops ==> s in Stitch(legs)
  {
    var n := |legs|;
    var leg := legs[n - 1];
    if n == 1 {
      assert legs[..0] == [];
      assert Stitch(legs) == Join([], leg) == leg;
      assert stops == [stops[0], stops[1]];
    } else {
      var front, frontStops := legs[..n - 1], stops[..n];
      StitchedWalk(frontStops, front, obstacles);
      WalkJoin(Stitch(front), leg, stops[0], stops[n - 1], stops[n], obstacles);
      forall s | s in stops
        ensures s in Stitch(legs)
      {
        if s != stops[n] {
          var k :| 0 <= k < |stops| && stops[k] == s;
          assert frontStops[k] == s;
        }
      }
    }
  }

  // ---------------------------------------------------------------------------
  // optimizeRoute

  /** The points the route passes, in order: the start, the pickups in
      greedy order and the end. */
  function Stops(start: Cell, end: Cell, pickups: seq<Cell>): (stops: seq<Cell>)
    ensures |stops| == |pickups| + 2 && stops[0] == start && stops[|stops| - 1] == end
    ensures forall p :: p in pickups ==> p in stops
  {
    GreedyVisitsEach(start, pickups);
    [start] + GreedyOrder(start, pickups) + [end]
  }

  /** Leg k is what findPath promises for the walk from stop k to stop k + 1. */
  ghost predicate LegsBetween(stops: seq<Cell>, legs: seq<seq<Cell>>, obstacles: seq<Cell>)
  {
    |stops| == |legs| + 1 &&
    forall k :: 0 <= k < |legs| ==> ShortestPathOrNone(stops[k], stops[k + 1], obstacles, legs[k])
  }

  lemma LegsSnoc(stops: seq<Cell>, legs: seq<seq<Cell>>, obstacles: seq<Cell>, next: Cell, leg: seq<Cell>)
    requires LegsBetween(stops, legs, obstacles)
    requires ShortestPathOrNone(stops[|stops| - 1], next, obstacles, leg)
    ensures LegsBetween(stops + [next], legs + [leg], obstacles)
  {
    var stops', legs' := stops + [next], legs + [leg];
    forall k | 0 <= k < |legs'|
      ensures ShortestPathOrNone(stops'[k], stops'[k + 1], obstacles, legs'[k])
    {
      if k < |legs| {
        assert stops'[k] == stops[k] && stops'[k + 1] == stops[k + 1] && legs'[k] == legs[k];
      }
    }
  }

  /** When every leg is found, the stitched route is a walk from the start
      to the end through every pickup point, of 1 + the legs' moves cells. */
  lemma RouteWhenLegsFound(stops: seq<Cell>, legs: seq<seq<Cell>>, obstacles: seq<Cell>)
    requires LegsBetween(stops, legs, obstacles) && |legs| > 0
    ensures (forall k :: 0 <= k < |legs| ==> legs[k] != []) ==>
              IsWalk(Stitch(legs), stops[0], stops[|legs|], obstacles) &&
              (forall s :: s in stops ==> s in Stitch(legs)) &&
              |Stitch(legs)| == 1 + Steps(legs)
  {
    if forall k :: 0 <= k < |legs| ==> legs[k] != [] {
      StitchedWalk(stops, legs, obstacles);
    }
  }

  /** The same, for the stops optimizeRoute goes through. */
  lemma LegsFoundRoute(start: Cell, end: Cell, pickups: seq<Cell>, obstacles: seq<Cell>, legs: seq<seq<Cell>>)
    requires LegsBetween(Stops(start, end, pickups), legs, obstacles)
    ensures (forall k :: 0 <= k < |legs| ==> legs[k] != []) ==>
              IsWalk(Stitch(legs), start, end, obstacles) && (forall p :: p in pickups ==> p in Stitch(legs)) &&
              |Stitch(legs)| == 1 + Steps(legs)
  {
    RouteWhenLegsFound(Stops(start, end, pickups), legs, obstacles);
  }

  /** Every stop can reach the next one. */
  ghost predicate Connected(stops: seq<Cell>, obstacles: seq<Cell>)
  {
    forall k :: 0 <= k < |stops| - 1 ==> Reachable(stops[k], stops[k + 1], obstacles)
  }

  /** Between connected stops findPath finds every leg. */
  lemma ConnectedLegsFound(stops: seq<Cell>, legs: seq<seq<Cell>>, obstacles: seq<Cell>)
    requires LegsBetween(stops, legs, obstacles) && Connected(stops, obstacles)
    ensures forall k :: 0 <= k < |legs| ==> legs[k] != []
  {
    forall k | 0 <= k < |legs|
      ensures legs[k] != []
    {
      assert Reachable(stops[k], stops[k + 1], obstacles);
    }
  }

  /** Without pickups the route is the one leg from start to end. */
  lemma SingleLeg(start: Cell, end: Cell, obstacles: seq<Cell>, leg: seq<Cell>)
    requires ShortestPathOrNone(start, end, obstacles, leg)
    ensures LegsBetween(Stops(start, end, []), [leg], obstacles) && Stitch([leg]) == leg
  {
    assert [leg][..0] == [];
    assert Stops(start, end, []) == [start, end];
  }

  /** The state of optimizeRoute's main loop: the points `visited` so far
      start the greedy order and the rest of it continues from
      `currentPoint` through `unvisited`; one leg was found per visited
      point and `fullPath` is their stitching. */
  ghost predicate Visiting(start: Cell, pickups: seq<Cell>, obstacles: seq<Cell>, unvisited: seq<Cell>,
                           currentPoint: Cell, visited: seq<Cell>, legs: seq<seq<Cell>>, fullPath: seq<Cell>)
  {
    GreedyOrder(start, pickups) == visited + GreedyOrder(currentPoint, unvisited) &&
    currentPoint == ([start] + visited)[|visited|] &&
    LegsBetween([start] + visited, legs, obstacles) &&
    fullPath == Stitch(legs)
  }

  /** Going to the nearest unvisited point along the leg findPath found
      keeps the loop's state. */
  lemma VisitNearest(start: Cell, pickups: seq<Cell>, obstacles: seq<Cell>, unvisited: seq<Cell>,
                     currentPoint: Cell, visited: seq<Cell>, legs: seq<seq<Cell>>, fullPath: seq<Cell>,
                     nearestIndex: nat, leg: seq<Cell>)
    requires Visiting(start, pickups, obstacles, unvisited, currentPoint, visited, legs, fullPath)
    requires |unvisited| > 0 && nearestIndex == NearestIndex(currentPoint, unvisited)
    requires ShortestPathOrNone(currentPoint, unvisited[nearestIndex], obstacles, leg)
    ensures var next := unvisited[nearestIndex];
      Visiting(start, pickups, obstacles, RemoveAt(unvisited, nearestIndex), next, visited + [next],
               legs + [leg], Join(fullPath, leg))
  {
    var next := unvisited[nearestIndex];
    GreedyStep(start, pickups, unvisited, currentPoint, visited, nearestIndex);
    LegsSnoc([start] + visited, legs, obstacles, next, leg);
    AppendStop(start, visited, next);
    StitchSnoc(legs, leg);
  }

  lemma GreedyStep(start: Cell, pickups: seq<Cell>, unvisited: seq<Cell>, currentPoint: Cell, visited: seq<Cell>,
                   nearestIndex: nat)
    requires GreedyOrder(start, pickups) == visited + GreedyOrder(currentPoint, unvisited)
    requires |unvisited| > 0 && nearestIndex == NearestIndex(currentPoint, unvisited)
    ensures var next := unvisited[nearestIndex];
      GreedyOrder(start, pickups) == visited + [next] + GreedyOrder(next, RemoveAt(unvisited, nearestIndex))
  {
    var next := unvisited[nearestIndex];
    var rest := GreedyOrder(next, RemoveAt(unvisited, nearestIndex));
    assert GreedyOrder(currentPoint, unvisited) == [next] + rest;
    assert visited + ([next] + rest) == visited + [next] + rest;
  }

  lemma AppendStop(start: Cell, visited: seq<Cell>, next: Cell)
    ensures [start] + visited + [next] == [start] + (visited + [next])
    ensures ([start] + (visited + [next]))[|visited + [next]|] == next
  {
  }

  lemma StitchSnoc(legs: seq<seq<Cell>>, leg: seq<Cell>)
    ensures Stitch(legs + [leg]) == Join(Stitch(legs), leg)
  {
    assert (legs + [leg])[..|legs|] == legs;
  }

  /** After the last pickup, the leg to the end completes the legs between the stops. */
  lemma VisitEnd(start: Cell, end: Cell, pickups: seq<Cell>, obstacles: seq<Cell>,
                 currentPoint: Cell, visited: seq<Cell>, legs: seq<seq<Cell>>, fullPath: seq<Cell>, leg: seq<Cell>)
    requires Visiting(start, pickups, obstacles, [], currentPoint, visited, legs, fullPath)
    requires ShortestPathOrNone(currentPoint, end, obstacles, leg)
    ensures LegsBetween(Stops(start, end, pickups), legs + [leg], obstacles)
    ensures Join(fullPath, leg) == Stitch(legs + [leg])
  {
    LegsSnoc([start] + visited, legs, obstacles, end, leg);
    assert GreedyOrder(currentPoint, []) == [];
    assert visited + [] == visited;
    assert Stops(start, end, pickups) == [start] + visited + [end];
    StitchSnoc(legs, leg);
  }

  /** optimizeRoute.  `legs` records the result of each findPath call, in order. */
  method OptimizeRoute(start: Cell, end: Cell, pickups: seq<Cell>, obstacles: seq<Cell>)
    returns (route: seq<Cell>, ghost legs: seq<seq<Cell>>)
    ensures pickups == [] ==> ShortestPathOrNone(start, end, obstacles, route)
    ensures pickups == [] ==> legs == [route]
    ensures LegsBetween(Stops(start, end, pickups), legs, obstacles)
    ensures route == Stitch(legs)
    ensures (forall k :: 0 <= k < |legs| ==> legs[k] != []) ==>
              IsWalk(route, start, end, obstacles) && (forall p :: p in pickups ==> p in route) &&
              |route| == 1 + Steps(legs)
    ensures Connected(Stops(start, end, pickups), obstacles) ==>
              IsWalk(route, start, end, obstacles) && forall p :: p in pickups ==> p in route
  {
    if |pickups| == 0 {
      route := FindPath(start, end, obstacles);
      legs := [route];
      SingleLeg(start, end, obstacles, route);
      LegsFoundRoute(start, end, pickups, obstacles, legs);
      if Connected(Stops(start, end, pickups), obstacles) {
        ConnectedLegsFound(Stops(start, end, pickups), legs, obstacles);
      }
      return;
    }
    var unvisited := pickups;
    var currentPoint := start;
    var fullPath: seq<Cell> := [];
    ghost var visited: seq<Cell> := [];
    legs := [];
    while |unvisited| > 0
      invariant Visiting(start, pickups, obstacles, unvisited, currentPoint, visited, legs, fullPath)
      decreases |unvisited|
    {
      var nearestPoint, nearestIndex := NearestPickup(currentPoint, unvisited);
      var pathSegment := FindPath(currentPoint, nearestPoint, obstacles);
      VisitNearest(start, pickups, obstacles, unvisited, currentPoint, visited, legs, fullPath, nearestIndex, pathSegment);
      ghost var before := fullPath;
      if |fullPath| > 0 {
        fullPath := fullPath[..|fullPath| - 1];
      }
      fullPath := fullPath + pathSegment;
      assert fullPath == Join(before, pathSegment);
      legs := legs + [pathSegment];
      visited := visited + [nearestPoint];
      currentPoint := nearestPoint;
      unvisited := RemoveAt(unvisited, nearestIndex);
    }
    var finalSegment := FindPath(currentPoint, end, obstacles);
    VisitEnd(start, end, pickups, obstacles, currentPoint, visited, legs, fullPath, finalSegment);
    ghost var before := fullPath;
    if |fullPath| > 0 {
      fullPath := fullPath[..|fullPath| - 1];
    }
    fullPath := fullPath + finalSegment;
    assert fullPath == Join(before, finalSegment);
    legs := legs + [finalSegment];
    route := fullPath;
    LegsFoundRoute(start, end, pickups, obstacles, legs);
    if Connected(Stops(start, end, pickups), obstacles) {
      ConnectedLegsFound(Stops(start, end, pickups), legs, obstacles);
    }
  }

  /** A blocked leg is not reported: when the final leg comes back empty
      after the others were found, the route is the route to the last pickup
      minus that pickup's cell, and it is empty only when every stop before
      the end is the same cell. Otherwise the caller's emptiness check
      (script.js line 438) lets through a route that reaches neither that
      pickup nor the end. */
  lemma BlockedFinalLeg(stops: seq<Cell>, legs: seq<seq<Cell>>, obstacles: seq<Cell>)
    requires LegsBetween(stops, legs, obstacles) && |legs| >= 2
    requires forall k :: 0 <= k < |legs| - 1 ==> legs[k] != []
    requires legs[|legs| - 1] == []
    ensures !Reachable(stops[|legs| - 1], stops[|legs|], obstacles)
    ensures Stitch(legs) + [stops[|legs| - 1]] == Stitch(legs[..|legs| - 1])
    ensures Stitch(legs) != [] ==> Stitch(legs)[0] == stops[0]
    ensures Stitch(legs) == [] <==> forall k :: 0 <= k < |legs| - 1 ==> stops[k] == stops[k + 1]
  {
    var n := |legs|;
    var front, frontStops := legs[..n - 1], stops[..n];
    assert ShortestPathOrNone(stops[n - 1], stops[n], obstacles, legs[n - 1]);
    forall k | 0 <= k < |front|
      ensures ShortestPathOrNone(frontStops[k], frontStops[k + 1], obstacles, front[k]) && front[k] != []
    {
      assert ShortestPathOrNone(stops[k], stops[k + 1], obstacles, legs[k]);
    }
    FoundLegsWalk(frontStops, front, obstacles);
    assert Stitch(legs) == Join(Stitch(front), []);
    FoundLegsNoMoves(stops, front, obstacles);
  }

  /** Found legs stitch into one walk from the first stop to the last. */
  lemma FoundLegsWalk(stops: seq<Cell>, legs: seq<seq<Cell>>, obstacles: seq<Cell>)
    requires |legs| > 0 && |stops| == |legs| + 1
    requires forall k :: 0 <= k < |legs| ==> ShortestPathOrNone(stops[k], stops[k + 1], obstacles, legs[k]) && legs[k] != []
    ensures IsWalk(Stitch(legs), stops[0], stops[|legs|], obstacles) && |Stitch(legs)| == 1 + Steps(legs)
  {
    StitchedWalk(stops, legs, obstacles);
  }

  /** Found legs make no moves in all exactly when every stop they join is the next one. */
  lemma FoundLegsNoMoves(stops: seq<Cell>, legs: seq<seq<Cell>>, obstacles: seq<Cell>)
    requires |stops| > |legs|
    requires forall k :: 0 <= k < |legs| ==> ShortestPathOrNone(stops[k], stops[k + 1], obstacles, legs[k]) && legs[k] != []
    ensures Steps(legs) >= 0
    ensures Steps(legs) == 0 <==> forall k :: 0 <= k < |legs| ==> stops[k] == stops[k + 1]
  {
    StepsZero(legs);
    if Steps(legs) == 0 {
      forall k | 0 <= k < |legs|
        ensures stops[k] == stops[k + 1]
      {
        LegOfOneCell(stops[k], stops[k + 1], obstacles, legs[k]);
      }
    } else {
      var k :| 0 <= k < |legs| && |legs[k]| != 1;
      LegOfOneCell(stops[k], stops[k + 1], obstacles, legs[k]);
    }
  }

  /** Legs that each have a cell make no moves in all exactly when each is a single cell. */
  lemma {:induction false} StepsZero(legs: seq<seq<Cell>>)
    requires forall k :: 0 <= k < |legs| ==> legs[k] != []
    ensures Steps(legs) >= 0
    ensures Steps(legs) == 0 <==> forall k :: 0 <= k < |legs| ==> |legs[k]| == 1
  {
    if legs != [] {
      var front := legs[..|legs| - 1];
      assert forall k :: 0 <= k < |front| ==> front[k] == legs[k];
      StepsZero(front);
    }
  }

  /** A found leg is a single cell exactly when it joins a cell to itself. */
  lemma LegOfOneCell(from: Cell, to: Cell, obstacles: seq<Cell>, leg: seq<Cell>)
    requires ShortestPathOrNone(from, to, obstacles, leg) && leg != []
    ensures |leg| == 1 <==> from == to
  {
    if from == to {
      SameCellPath(from, obstacles, leg);
    }
  }

  // ---------------------------------------------------------------------------
  // The route's distance

  /** script.js line 447: the number of moves of a found route. */
  function RouteDistance(route: seq<Cell>): (d: nat)
    requires route != []
    ensures d + 1 == |route|
  {
    |route| - 1
  }

  /** A route of adjacent steps is never shorter than the Manhattan distance between its ends. */
  lemma RouteDistanceBound(route: seq<Cell>)
    requires route != [] && Chained(route)
    ensures Heuristic(route[0], route[|route| - 1]) <= RouteDistance(route)
  {
    HeuristicDrift(route, 0, route[|route| - 1]);
  }

  /** A found route's distance is the sum of its legs' moves, and no less
      than the Manhattan distance from start to end. */
  lemma RouteDistanceOfLegs(start: Cell, end: Cell, pickups: seq<Cell>, obstacles: seq<Cell>,
                            route: seq<Cell>, legs: seq<seq<Cell>>)
    requires LegsBetween(Stops(start, end, pickups), legs, obstacles) && route == Stitch(legs)
    requires forall k :: 0 <= k < |legs| ==> legs[k] != []
    ensures route != [] && RouteDistance(route) == Steps(legs)
    ensures Heuristic(start, end) <= RouteDistance(route)
  {
    var stops := Stops(start, end, pickups);
    RouteWhenLegsFound(stops, legs, obstacles);
    WalkAtLeastHeuristic(route, start, end, obstacles);
  }
}
