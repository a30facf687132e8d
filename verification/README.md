# Warehouse robot route planner — verified model

This project models the route-planning core of a browser-based warehouse robot simulator (`script.js`). The robot moves on a 10 × 15 grid of cells, one step up, down, left or right at a time, and may not enter obstacle cells. The model covers these parts:

- **`heuristic`**: the Manhattan distance between two cells.
- **`getNeighbors`**: the passable cells one step away, tried in the order up, down, left, right.
- **`findPath`**: A* search with unit step cost. It keeps an open list, a closed list and the `cameFrom`, `gScore` and `fScore` dictionaries. It returns the path rebuilt from `cameFrom`, or `[]` when the open list runs out.
- **`optimizeRoute`**: orders the pickup points greedily. From the current point it always goes to the nearest unvisited pickup. It finds each leg with `findPath`, and stitches the legs by popping the cell where two legs meet.
- the route distance `length - 1` that the caller derives from the route.

Modules:

- `Grid` (`grid.dfy`): cells, adjacency, walks, the heuristic, and the list operations `splice` and `reverse`.
- `GridNeighbors` (`neighbors.dfy`): `getNeighbors`.
- `AStar` (`astar.dfy`): `findPath`, its loop invariant and the A* optimality argument.
- `RoutePlanner` (`route.dfy`): `optimizeRoute` and the route distance.

`findPath`, `getNeighbors` and `optimizeRoute` change local state step by step, so they are methods with loops:

- The open and closed lists are `seq<Cell>`.
- The three dictionaries are `map<Cell, …>`, keyed by the cell itself instead of the `"row,col"` string.
- Each method is proved against a specification:
  - `ShortestPathOrNone` for `findPath`;
  - `Neighbors` for `getNeighbors`;
  - `GreedyOrder`, `Stitch` and `LegsBetween` for `optimizeRoute`.

The obstacles, a global in the source, are a parameter. The grid size is the pair of constants `GridRows` and `GridCols`.

What is proved:

- **Heuristic.** It is 0 exactly when the two cells are equal. It is symmetric and changes by at most 1 per step (consistent). No walk is shorter than it (admissible).
- **Neighbours.** They are exactly the passable cells adjacent to the node, at most four of them, in the order up, down, left, right.
- **`findPath` result.** It returns `[]` exactly when no walk joins the two cells. Otherwise it returns a walk from start to end that no walk is shorter than. It returns `[c]` when start and end are both `c`.
- **`findPath` termination and invariant.** It terminates. The closed list and the open list never share a cell.
- **Neighbour loop.** Expanding a cell appends exactly the new neighbours to the open list, in order. Exactly the neighbours whose g-score improves get a new parent and new scores.
- **Popping from the open list.** The cell taken is the first one with the lowest f-score. It already carries its optimal g-score.
- **Nearest pickup.** `optimizeRoute` picks the first unvisited point at strictly minimal distance.
- **Visit order.** The visiting order is a permutation of the pickups.
- **Legs.** Each leg satisfies `findPath`'s contract between consecutive stops. With no pickups, the route is the single `findPath` result.
- **Stitched route.** When every leg is found, the route is a walk from start to end that passes every pickup. Its length is 1 + Σ(|leg| − 1).
- **Blocked final leg.** When only the final leg is blocked, the route stops one cell short of the last pickup. It is empty only when the start and all pickups are the same cell, so an empty result does not reliably signal failure.

## Model

| member | source | states |
|---|---|---|
| Grid.Heuristic | script.js:319-321 | the Manhattan distance is a natural number, and it is 0 exactly when the two cells are equal |
| Grid.HeuristicSymmetric | script.js:319-321 | heuristic(a, b) == heuristic(b, a) |
| Grid.HeuristicStep | script.js:319-321 | one step changes the distance to any goal by at most 1 in either direction (consistency) |
| Grid.HeuristicDrift | script.js:319-321 | along any chain of steps, the distance to a goal falls by at most one per step |
| Grid.WalkAtLeastHeuristic | script.js:319-321 | no walk between two cells has fewer moves than their Manhattan distance (admissibility) |
| Grid.RemoveAt | script.js:250 | `splice(i, 1)` shortens the list by one, keeps every other element and adds none |
| Grid.RemoveAtMultiset | script.js:366 | `splice(i, 1)` removes exactly one copy of the i-th element |
| Grid.Reversed | script.js:246 | `reverse()` puts element i at position n-1-i |
| Grid.ReversedChained | script.js:246 | a path of adjacent cells read backwards is still a path of adjacent cells |
| GridNeighbors.MovesAdjacent | script.js:291-300 | each of the four moves up, down, left and right reaches a cell adjacent to the node, and the four moves reach four different cells |
| GridNeighbors.DirectionOf | script.js:291-296 | each adjacent cell is reached by one of the four moves, and the result is that move's index |
| GridNeighbors.DirectionOfUnique | script.js:291-300 | a cell reached by move e is adjacent, and DirectionOf returns e for it: no other move reaches that cell |
| GridNeighbors.PassableStepsMembers | script.js:298-313 | the first k moves yield exactly the in-bounds, non-obstacle cells they reach, at most k of them |
| GridNeighbors.PassableStepsOrdered | script.js:298-313 | the first k moves yield their cells in move order |
| GridNeighbors.NeighborsSpec | script.js:288-316 | at most 4 neighbours; a cell is a neighbour iff it is adjacent, in bounds and not an obstacle; neighbours come in the order up, down, left, right |
| GridNeighbors.NeighborsDistinct | script.js:288-316 | no cell is listed twice among the neighbours |
| GridNeighbors.GetNeighbors | script.js:288-316 | the loop over the four directions returns exactly `Neighbors(node, obstacles)` |
| AStar.SameCellPath | script.js:235-247 | from a cell to itself the only shortest path is the one-cell path |
| AStar.PopBound | script.js:220-232 | for one walk to the popped cell: the cell with the lowest f-score has a g-score no larger than that walk's length |
| AStar.PopIsOptimal | script.js:220-232 | the popped cell's g-score is optimal: no walk from the start is shorter (consistent heuristic) |
| AStar.CloseCurrent | script.js:249-251 | moving the popped cell from the open to the closed list keeps the search invariant and starts its expansion |
| AStar.CloseKeepsLists | script.js:249-251 | after the move the scores are still recorded, open and closed are still disjoint, the start is still the root, and the goal is not closed |
| AStar.CloseKeepsLinks | script.js:249-251 | every reached cell still has a closed parent one step away and one g-score lower |
| AStar.CloseKeepsDistances | script.js:249-251 | closed cells stay settled, and the neighbours of closed cells are still covered |
| AStar.CloseKeepsCovered | script.js:250-251 | splicing out the popped cell and closing it leaves every neighbour of a closed cell closed or open |
| AStar.CloseKeepsSettled | script.js:251 | closing a cell whose g-score is optimal keeps every closed cell settled |
| AStar.RemoveAtSeparate | script.js:250 | splicing a list without repeats leaves no copy of the removed cell |
| AStar.ExhaustedMeansUnreachable | script.js:283-284 | once the open list is empty, no walk reaches the goal |
| AStar.WalksStayClosed | script.js:283-284 | with the open list empty, every walk from the start ends in a closed cell |
| AStar.SkipNeighbor | script.js:259-273 | skipping a neighbour that is closed, or open with a score no worse, keeps the expansion invariant |
| AStar.RecordNeighbor | script.js:268-279 | opening a neighbour and recording `current` as its parent with g + 1 keeps the expansion invariant |
| AStar.RecordKeepsScored | script.js:277-279 | the new g- and f-scores keep f = g + h for every open cell |
| AStar.RecordKeepsSeparate | script.js:268-270 | pushing a cell that is not closed keeps the open list free of repeats and disjoint from the closed list |
| AStar.RecordKeepsParents | script.js:277-278 | the new parent is closed, adjacent, and one g-score lower |
| AStar.RecordKeepsCovered | script.js:268-279 | an improved score keeps every earlier-expanded cell's neighbours covered |
| AStar.RecordKeepsDone | script.js:256-279 | every neighbour handled so far is closed, or open with g at most g[current] + 1 |
| AStar.ExpansionDone | script.js:254-280 | after the last neighbour, the full search invariant holds again |
| AStar.InitialSearch | script.js:206-216 | the initial lists and maps satisfy the search invariant |
| AStar.ClosingShrinks | script.js:249-251 | closing a new cell shrinks the finite set of cells still unclosed (termination) |
| AStar.GoalPath | script.js:235-247 | a walk to the goal with g[end] + 1 cells is a shortest path |
| AStar.SelectLowest | script.js:220-232 | returns the first open cell with the lowest f-score: no open cell has a lower one, and every earlier cell has a strictly higher one |
| AStar.ExpandNeighbors | script.js:254-280 | examining the neighbours of the cell just closed restores the search invariant (scores, parents, disjoint lists, settled closed cells, covered neighbours); the open list gains exactly the neighbours that were neither closed nor open, in neighbour order; a neighbour whose g-score the step improves (not closed, and not open with a non-zero score no larger than g[current] + 1) gets `current` as parent, g[current] + 1 as g-score and g + h as f-score; every other cell keeps its parent and scores |
| AStar.ExamineOne | script.js:259-279 | the specification of one iteration of the neighbour loop; examining a neighbour keeps the closed cell `current` scored |
| AStar.ExamineAll | script.js:256-280 | the neighbour loop as repeated ExamineOne steps; `current` stays scored throughout |
| AStar.ExpandStep | script.js:259-279 | examining one more neighbour, skipped or recorded, keeps the expansion invariant |
| AStar.ExpandSkipped | script.js:259-273 | a closed neighbour, or an open one whose score the step does not beat, leaves the state unchanged and keeps the expansion invariant |
| AStar.ExpandRecorded | script.js:268-279 | a neighbour that is recorded through `current` keeps the expansion invariant |
| AStar.ExamineAllKeeps | script.js:256-280 | examining the neighbours one by one keeps the expansion invariant throughout the loop |
| AStar.NewCellsMembers | script.js:268-270 | a cell is appended to the open list exactly when it is a neighbour that is neither closed nor open |
| AStar.ExaminedBefore | script.js:259-270 | a neighbour not yet examined is still open exactly when it was, with its old g-score, and `current` keeps its score |
| AStar.ExamineNext | script.js:259-279 | one more distinct neighbour changes the open list and dictionaries only at that neighbour, and only when the step improves it |
| AStar.ExamineImproved | script.js:268-279 | an improved neighbour is appended if new and gets the parent and scores through `current`; nothing else changes |
| AStar.ExamineAllEffect | script.js:256-280 | for distinct neighbours, the open list gains the new ones in order, and exactly the improved ones get new parent and scores |
| AStar.ExpansionEffect | script.js:256-280 | the state the neighbour loop leaves is the open list plus the new neighbours, with the improved neighbours re-parented and re-scored and all else unchanged |
| AStar.ReconstructPath | script.js:236-246 | following `cameFrom` from the goal and reversing gives a walk from start to goal with g[goal] + 1 cells |
| AStar.FindPath | script.js:205-285 | returns `[]` exactly when the end is unreachable, otherwise a shortest walk from start to end; returns `[start]` when start = end; terminates |
| RoutePlanner.NearestAmong | script.js:342-351 | the index of the first of the first n points whose distance is strictly minimal |
| RoutePlanner.NearestIndex | script.js:337-351 | the pickup chosen is at least as close as every unvisited point and strictly closer than every earlier one |
| RoutePlanner.Below | script.js:337-346 | `dist < nearestDist` with `nearestDist` possibly `Infinity`: every distance is below `Infinity`, and below a finite bound exactly when it is smaller |
| RoutePlanner.NearestPickup | script.js:337-351 | the scan with the `Infinity` sentinel and strict `<` returns `NearestIndex` and its point |
| RoutePlanner.GreedyOrder | script.js:336-367 | the visiting order has one entry per pickup |
| RoutePlanner.GreedyOrderPermutes | script.js:336-367 | the visiting order is a permutation of the pickups: each is visited exactly once |
| RoutePlanner.GreedyVisitsEach | script.js:331-366 | a point is in the visiting order iff it is a pickup |
| RoutePlanner.GreedyStep | script.js:354-366 | after the nearest point is visited and spliced out, the rest of the order continues greedily from it |
| RoutePlanner.Join | script.js:358-362 | popping the route's last cell and appending the leg: from an empty route the result is the leg; it has \|route\| − 1 + \|leg\| cells; when the leg starts where the route ends, the whole route and the whole leg are kept; an empty leg only loses the route's last cell |
| RoutePlanner.Stitch | script.js:353-374 | legs that each have a cell stitch into a route of 1 + Σ(\|leg\| − 1) cells |
| RoutePlanner.WalkJoin | script.js:358-362 | popping the junction cell and appending the next leg joins two walks into one; no cell is lost, and the length is the sum minus one |
| RoutePlanner.StitchedWalk | script.js:358-376 | legs that walk from stop to stop stitch into one walk from the first stop to the last that passes every stop and has 1 + Σ(\|leg\| − 1) cells |
| RoutePlanner.Stops | script.js:331-374 | the stops are the start, the pickups in greedy order, and the end; every pickup is a stop |
| RoutePlanner.LegsSnoc | script.js:354-370 | a further findPath leg from the last stop extends the leg list |
| RoutePlanner.RouteWhenLegsFound | script.js:358-376 | if every leg is non-empty, the stitched route is a walk through all stops with 1 + Σ(\|leg\| − 1) cells |
| RoutePlanner.LegsFoundRoute | script.js:324-376 | if every leg is non-empty, the route walks from start to end through every pickup |
| RoutePlanner.SingleLeg | script.js:326-328 | with no pickups, the route is the one findPath leg between start and end |
| RoutePlanner.VisitNearest | script.js:353-366 | one iteration of the main loop keeps the order, the legs and the stitched path in step |
| RoutePlanner.VisitEnd | script.js:369-374 | the final findPath leg to the end completes the legs between all stops |
| RoutePlanner.OptimizeRoute | script.js:324-377 | with no pickups the route is the one findPath leg; each leg is findPath's result between consecutive stops (start, pickups in greedy order, end); the route is the legs stitched; if every leg is found, the route walks from start to end through every pickup with 1 + Σ(\|leg\| − 1) cells; in particular it does so whenever each stop can reach the next |
| RoutePlanner.ConnectedLegsFound | script.js:354-370 | when each stop can reach the next, no findPath leg comes back empty |
| RoutePlanner.BlockedFinalLeg | script.js:369-374 | when every leg but the final one is found and the final one is empty, the end is unreachable from the last pickup, the route is the route to that pickup minus its last cell, it starts at the start, and it is empty only when every stop before the end is the same cell; so the caller's emptiness check (script.js line 438) misses the failure in every other case |
| RoutePlanner.LegOfOneCell | script.js:205-285 | a found findPath leg has a single cell exactly when it joins a cell to itself |
| RoutePlanner.FoundLegsNoMoves | script.js:353-374 | found legs make no moves in all exactly when each stop they join is the next one |
| RoutePlanner.RouteDistance | script.js:447 | the distance is one less than the number of cells, because the route includes the start point |
| RoutePlanner.RouteDistanceBound | script.js:447 | a route of adjacent steps has a distance no smaller than the Manhattan distance between its ends |
| RoutePlanner.RouteDistanceOfLegs | script.js:447 | a found route's distance (length − 1) is the legs' total number of moves, and is at least the Manhattan distance from start to end |

## Left out

- The user interface is not modelled: grid creation, click handling, mode changes, resetting, path painting and the event listeners (script.js:12-202, 380-398, 500-505). None of it is algorithmic.
- The obstacle and pickup toggles are not modelled (script.js:76-114). They read cell state from the page. The model takes obstacles and pickups as plain lists.
- The `timeCritical` flag that the toggles attach to a pickup is not modelled, because no part of the core reads it.
- `updateStats` and the time estimate are not modelled (script.js:401-413, 448-449). They use floating-point division and page input fields. Only the integer distance is modelled.
- `simulateRobot` (script.js:459-498) is not modelled: it is a timer-driven animation. The `alert` calls are not modelled either.
- There is no failure propagation for a blocked leg, because the code has none. One might expect the route planner to report overall failure when any leg is blocked. The model follows the code instead:
  - an empty leg still pops the junction cell and appends nothing, as `Join` does;
  - `BlockedFinalLeg` states what the route is when the final leg is blocked: the route to the last pickup minus that pickup, empty only when all stops before the end coincide;
  - the route properties of `OptimizeRoute` are stated only when every leg is found.
- FindPath: the contract fixes the path's length (shortest) and its ends, but not which of several shortest paths is returned. The tie-break is stated in SelectLowest, which picks the lowest open-list index among equal f-scores. The exact cell sequence of the returned path is not tied to it.
- OptimizeRoute: with no pickups, the route "is exactly findPath(start, end)". The model states this as "the route is the single leg returned by the call to FindPath, with FindPath's contract". A contract cannot call the method FindPath, so it cannot say `route == FindPath(start, end, obstacles)`.
- JavaScript numbers are modelled as unbounded integers. Coordinates and path lengths on a 10 × 15 grid are small, so no rounding or overflow occurs.
- The `gScore[key] || Infinity` test is modelled exactly: a missing or zero score counts as infinite. The invariant shows that no open cell other than the start ever has score 0.
