# Free_Space route planners in Dafny

This project models the core of Free_Space, a pair of route planners for a car
park, and proves properties of that model. The planners find a path between a
start and a goal in a rectangular car park with walls and blocked cells.

- `real_math.dfy` (module `RealMath`) holds the library calls the planners make:
  `sqrt`, `sin`, `cos`, `tan`, `atan2` and the built-in `round`. They are not
  computed. A `MathLib` value carries them as function values, and `Valid`
  lists the only facts used about them:
  - square roots are non-negative and exact at 0, 1 and 4;
  - sin² + cos² = 1;
  - `atan2` lies in (-Pi, Pi].
- `car_park.dfy` (module `CarPark`) covers the car park:
  - the grid index `x + y * width`;
  - the orientation test `ccw` and the segment test `intersect`;
  - the move check `is_not_crossed_obstacle`;
  - the construction of the 82 x 63 car park: its blocked cells and its 54 wall
    segments.
- `search_sets.dfy` (module `SearchSets`) holds the open-set bookkeeping both
  planners share. Selection picks some key of minimal score. Relaxation
  replaces an entry only with a strictly cheaper node.
- `a_star.dfy` (module `AStar`) is the grid planner. It runs an 8-connected
  best-first search over integer cells, with maps keyed by grid index for the
  open and closed sets. It relaxes only to strictly lower costs, never reopens a
  closed key, tests for the goal by exact equality, and rebuilds the route from
  parent keys.
- `hybrid_a_star.dfy` (module `HybridAStar`) is the hybrid planner. Nodes carry
  continuous poses and are keyed by the cell their position rounds to. Each
  expansion drives one arc per pair of a steering input and a chord length.
  The goal test accepts any position within 1 of the goal. The route carries
  the continuous coordinates.
  - The motion model of `HybridAStarRoutePlanner.__init__` is a `MotionModel`
    value: the steering inputs and the chord lengths. `DefaultMotionModel()`
    gives the planner's own lists. The wheelbase is the constant 2.7.

The searches are methods with loops over `map<int, Node>`. Their loop
invariants state the following:
- the open and closed key sets are disjoint;
- every node is filed under the grid index of its own cell;
- every parent key is the root marker -1 or a closed key;
- a ghost `rank` map records the closing order, so parents are closed before
  their children.

Together these give termination of route reconstruction and of the search.
They also show that every returned route is a chain of allowed moves.

For the grid planner, an empty result is proved to mean the goal cannot be
reached, from any start cell.

Three behaviours of the code are worth knowing:
- **Blocked starts.** A start on a blocked cell is not rejected. Neither
  planner checks the start cell. The blocked-cell test of the move check
  reads only the target cell; the source cell enters only as an endpoint of
  the wall-crossing segment. `CarPark.BlockedCellCanBeLeft` proves that the blocked cell (11, 17)
  can move to (12, 16).
- **Touching a wall.** The strict orientation test is direction dependent:
  leaving a point on a wall can count as a crossing while arriving on it does
  not (`CarPark.TouchingIsDirectional`). Fully collinear segments never cross
  (`CarPark.CollinearNeverCrosses`).
- **Solid partitions.** The partitions at y = 17 and y = 40 are blocked on
  every column from 11 to 71, with no gaps (`CarPark.PartitionCellBlocked`).
  Only the vertical stubs repeat, every 4 columns from x = 11
  (`CarPark.StubLinesShape`).

## Model

| member | source | states |
|---|---|---|
| `CarPark.GridIndexInjective` | src/car_park.py:44-45 | On columns 0 .. width-1 two cells share a grid index exactly when they are the same cell, whatever their rows |
| `CarPark.GridIndexCollidesAtWidth` | src/car_park.py:44-45 | Injectivity fails at column `width`: (width, y) and (0, y+1) share a key |
| `CarPark.WidthColumnKeyApart` | src/car_park.py:44-45 | A cell in column `width` never shares its grid index with an interior cell, because its index is a multiple of the width |
| `CarPark.InteriorKey` | src/car_park.py:44-57 | A cell strictly inside the car park has a key among the interior keys and above the width, so it is never the root marker -1 |
| `CarPark.CcwRotate` | src/car_park.py:68-69 | The orientation test is invariant under cyclic rotation of its three points |
| `CarPark.IntersectSymmetric` | src/car_park.py:61-69 | Whether two segments cross does not depend on which one is the wall |
| `CarPark.CollinearNeverCrosses` | src/car_park.py:61-69 | Segments on one common line never cross, so collinear overlaps are free |
| `CarPark.TouchingIsDirectional` | src/car_park.py:61-69 | Leaving the partition at y = 17 upwards from a point on it counts as a crossing; arriving on that point from below does not |
| `CarPark.CrossesAny` | src/car_park.py:48-53 | The `any` over the wall list is true exactly when some wall segment crosses the move |
| `CarPark.TraversableIff` | src/car_park.py:47-59 | A move is allowed exactly when its target is not a blocked cell, lies strictly inside 0 < x < width and 0 < y < height, and its segment crosses no wall |
| `CarPark.ObstaclesInBounds` | src/car_park.py:12-39 | Every constructed blocked cell lies in [0, 82] x [0, 63], on a frame row or column, a partition row or a stub column 4k + 11 |
| `CarPark.ObstacleLineCount` | src/car_park.py:18-42 | The wall list has 4 frame, 2 partition and 16 x 3 stub segments, 54 in all |
| `CarPark.ObstacleCount` | src/car_park.py:12-39 | The blocked-cell list has 290 frame, 122 partition and 480 stub cells, 892 entries |
| `CarPark.StubLinesShape` | src/car_park.py:40-42 | Every stub wall runs upwards along a column 4k + 11 with k < 16 |
| `CarPark.BlockedCellCanBeLeft` | src/car_park.py:47-59 | The blocked-cell test reads only the target cell, and the source cell enters only as an endpoint of the wall-crossing segment: (11, 17) is blocked, yet the move from it to (12, 16) is allowed |
| `CarPark.PartitionCellBlocked` | src/car_park.py:26-28 | Both partition rows, y = 17 and y = 40, are blocked on every column from 11 to 71 |
| `SearchSets.ArgMin` | src/a_star_route_planner.py:44-47 | The selected key is in the open set and its node's score is no larger than that of any open node |
| `SearchSets.Relax` | src/a_star_route_planner.py:84-89 | Offering a node adds its key; an unseen key takes the node; a present key changes only to a strictly cheaper node and always takes a strictly cheaper one; other keys keep their nodes |
| `SearchSets.RelaxKeepsCheapest` | src/hybrid_a_star_route_planner.py:88-93 | After an offer, the key costs no more than the offered node or its old entry, and no stored cost has risen |
| `AStar.MotionTable` | src/a_star_route_planner.py:21-30 | The motion table has eight rows: the eight king moves, each once, costing 1 along an axis and sqrt(2) on a diagonal |
| `AStar.MotionIndex` | src/a_star_route_planner.py:21-30 | Every king move is made by some row of the motion table |
| `AStar.HeuristicCost` | src/a_star_route_planner.py:107-114 | The Euclidean heuristic is non-negative and zero on the goal cell |
| `AStar.Successors` | src/a_star_route_planner.py:66-72 | Expansion yields eight successors in eight distinct cells; each is one king move away, adds that move's cost and names the current key as parent |
| `AStar.SuccessorIndex` | src/a_star_route_planner.py:66-72 | Every king move out of the current cell is among its successors |
| `AStar.OfferKeepsOpenInv` | src/a_star_route_planner.py:81-89 | Offering an allowed successor with an unclosed key keeps the open set disjoint from the closed set, filed and linked, and adds only an interior key |
| `AStar.OfferKeepsOffered` | src/a_star_route_planner.py:84-89 | An offer lowers no stored cost, so earlier successors stay offered and the new one is stored at no more than its cost |
| `AStar.ExpandRound` | src/a_star_route_planner.py:77-89 | One round of the motion loop (offer, or skip a blocked or closed target) keeps the loop invariant |
| `AStar.Expand` | src/a_star_route_planner.py:66-89 | After the motion loop the open set is well formed and has grown only by interior keys; every allowed move out of the current cell leads to an open or closed key; every allowed successor whose key is not closed is open at no more than its own cost; each entry is kept or replaced by a strictly cheaper successor |
| `AStar.ProcessRoute` | src/a_star_route_planner.py:95-104 | Reconstruction terminates with equal-length lists, goal first and start last, each cell one allowed king move from the next one, at most one entry per closed key plus one; the list has one entry exactly when the goal node is the root |
| `AStar.RouteGivesWalk` | src/a_star_route_planner.py:95-104 | Read backwards, a route is a walk of allowed moves from its last cell to its first |
| `AStar.FinishAtGoal` | src/a_star_route_planner.py:54-57 | The goal branch returns a route from the start to the goal; when the start is the goal it is the single point |
| `AStar.CloseAndExpand` | src/a_star_route_planner.py:59-89 | Closing the selected non-goal node and expanding it keeps the search invariant and adds exactly one new key to the closed set |
| `AStar.SearchRoute` | src/a_star_route_planner.py:35-92 | The search terminates; a non-empty result is a route from start to goal; start = goal gives the single goal point; an empty result means no walk reaches the goal, for every start cell |
| `AStar.InitialSearchInv` | src/a_star_route_planner.py:36-40 | The open set holding only the start node and an empty closed set satisfy the search invariant |
| `AStar.NothingClosedOnlyRoot` | src/a_star_route_planner.py:39-48 | While nothing is closed the only node that can be open is the start node |
| `AStar.OpenNodeLinked` | src/a_star_route_planner.py:48-57 | The selected open node's parent link is sound, as reconstruction needs |
| `AStar.CloseKeepsOpenInv` | src/a_star_route_planner.py:60-63 | Moving the selected node from the open to the closed set keeps the rest of the open set well formed |
| `AStar.CloseKeepsClosedInv` | src/a_star_route_planner.py:60-63 | The closed set stays filed and linked, with every parent ranked before its child |
| `AStar.AfterExpand` | src/a_star_route_planner.py:60-89 | After closing and expanding, the search invariant holds again and the closed key is new and within the finite universe of keys |
| `AStar.CoveredAfterExpand` | src/a_star_route_planner.py:77-89 | Every closed cell has all its allowed moves leading to open or closed keys |
| `AStar.NeighbourKeyNonNegative` | src/a_star_route_planner.py:73-75 | A cell next to an interior cell has a non-negative key, so a successor's parent key is never -1 |
| `AStar.WalkHead` | src/a_star_route_planner.py:66-89 | The second cell of a walk, if any, is one allowed king move from the first |
| `AStar.NoStepFromOutside` | src/a_star_route_planner.py:77-80 | No allowed move leaves a cell left of column 0 or right of column `width`, since every allowed target is strictly inside |
| `AStar.SameKeySameCell` | src/a_star_route_planner.py:73-75 | For a start column in 0 .. width, the start and interior cells share a grid index only when they are the same cell |
| `AStar.WalkStaysClosed` | src/a_star_route_planner.py:91-92 | For a start column in 0 .. width: when the open set is empty, every walk from the start stays in closed cells |
| `AStar.ExhaustedMeansUnreachable` | src/a_star_route_planner.py:91-92 | For every start cell, running out of open nodes without meeting the goal means no walk leads from the start to the goal |
| `HybridAStar.NewNode` | src/hybrid_a_star_route_planner.py:14-27 | A node keeps its pose, cost, steering and parent and stores the rounded position as its discrete cell |
| `HybridAStar.ChangeRadiansRange` | src/hybrid_a_star_route_planner.py:144-147 | The normalised angle lies in (-Pi, Pi] |
| `HybridAStar.CalculateNextNode` | src/hybrid_a_star_route_planner.py:113-126 | The next node costs the current cost plus the chord length, records the steering input and the parent key, is rounded consistently, and has its heading in (-Pi, Pi] |
| `HybridAStar.StepLength` | src/hybrid_a_star_route_planner.py:113-126 | Each arc ends exactly one chord length (2 or 1) from the current position |
| `HybridAStar.ArcsForLength` | src/hybrid_a_star_route_planner.py:72-78 | The nested comprehension yields one node per pair of a steering input and a chord length |
| `HybridAStar.ArcsForNodes` | src/hybrid_a_star_route_planner.py:72-78 | Every generated node names the current key as parent, is rounded consistently, steers by one of the inputs and costs one of the chord lengths more |
| `HybridAStar.ArcsForComplete` | src/hybrid_a_star_route_planner.py:72-78 | Every pair of a steering input and a chord length yields a generated node |
| `HybridAStar.Successors` | src/hybrid_a_star_route_planner.py:72-78 | Every successor names the current key as parent, is rounded consistently, steers by one of the model's inputs and costs one of its chord lengths more than the current node |
| `HybridAStar.DefaultSuccessors` | src/hybrid_a_star_route_planner.py:34-38 | With the planner's own inputs there are 14 successors, each steering by one of the seven inputs and costing 2 or 1 more; every input is driven with both chord lengths |
| `HybridAStar.SteeringMagnitudes` | src/hybrid_a_star_route_planner.py:36-37 | Every steering input other than straight ahead is at least 10 degrees off centre |
| `HybridAStar.DistanceToEnd` | src/hybrid_a_star_route_planner.py:137-142 | The distance to the goal is non-negative and zero on the goal position |
| `HybridAStar.HeuristicBounds` | src/hybrid_a_star_route_planner.py:128-135 | The heuristic lies between distance plus 10 x steering magnitude and that plus 0.1 x Pi |
| `HybridAStar.HeuristicNotAdmissible` | src/hybrid_a_star_route_planner.py:128-135 | On the goal position the remaining distance is 0, yet a steering node still scores at least 10 x its steering magnitude, so the heuristic overestimates |
| `HybridAStar.SteeringPenalty` | src/hybrid_a_star_route_planner.py:128-135 | Every steering successor pays at least 10 x radians(10) beyond its distance to the goal |
| `HybridAStar.OfferKeepsOpenInv` | src/hybrid_a_star_route_planner.py:84-93 | Offering an allowed successor with an unclosed key keeps the open set disjoint, filed by rounded cell and linked, and adds only an interior key |
| `HybridAStar.OfferKeepsOffered` | src/hybrid_a_star_route_planner.py:88-93 | An offer lowers no stored cost, so earlier successors stay offered and the new one is offered at no more than its cost |
| `HybridAStar.ExpandRound` | src/hybrid_a_star_route_planner.py:79-93 | One round of the successor loop (offer, or skip a blocked or closed target) keeps the loop invariant |
| `HybridAStar.Expand` | src/hybrid_a_star_route_planner.py:79-93 | After the successor loop, every allowed successor with an unclosed key is open at no more than its cost; every new or replaced entry is one of the successors of the current node (so it costs the current cost plus a chord length) and is strictly cheaper than the entry it replaces; only interior keys were added |
| `HybridAStar.RootKeyIsStartKey` | src/hybrid_a_star_route_planner.py:44-47 | A closed key -1 can only be the start's own key, since interior keys are positive |
| `HybridAStar.ParentStep` | src/hybrid_a_star_route_planner.py:106-110 | A non-root linked node's parent is closed, linked, ranked earlier and one allowed move from it |
| `HybridAStar.RouteExtend` | src/hybrid_a_star_route_planner.py:106-109 | Appending a parent one allowed move away keeps the list a route |
| `HybridAStar.ChainStep` | src/hybrid_a_star_route_planner.py:105-110 | One round of the reconstruction loop steps to a closed parent not visited before, keeps a route from the goal position to the new last point, and keeps the next parent ranked below every visited key |
| `HybridAStar.ProcessRoute` | src/hybrid_a_star_route_planner.py:99-111 | Reconstruction terminates with equal-length continuous coordinate lists, goal pose first, each rounded cell one allowed move from the next; it ends at the start pose unless the start's own key is -1; it has one entry exactly when the goal node is a root |
| `HybridAStar.FinishAtGoal` | src/hybrid_a_star_route_planner.py:60-63 | The goal branch returns a route whose first point is within 1 of the goal |
| `HybridAStar.StartFarFromGoal` | src/hybrid_a_star_route_planner.py:60-66 | Reaching the expansion branch shows the start pose is more than 1 from the goal |
| `HybridAStar.CloseAndExpand` | src/hybrid_a_star_route_planner.py:65-93 | Closing the selected node and expanding it keeps the search invariant and adds exactly one new key to the closed set |
| `HybridAStar.Explore` | src/hybrid_a_star_route_planner.py:50-96 | The main loop terminates and returns a route that starts within 1 of the goal and ends at the start (unless the start's key is -1), or no route; a start within 1 of the goal gives the single start point |
| `HybridAStar.SearchRoute` | src/hybrid_a_star_route_planner.py:43-96 | The search terminates; a non-empty result is a route whose first point is within 1 of the goal and whose last is the start (unless the start's key is -1); a start within 1 of the goal gives the single start point |
| `HybridAStar.InitialSearchInv` | src/hybrid_a_star_route_planner.py:44-48 | The open set holding only the start node and an empty closed set satisfy the search invariant |
| `HybridAStar.NothingClosedOnlyRoot` | src/hybrid_a_star_route_planner.py:44-55 | While nothing is closed the only node that can be open is the start node |
| `HybridAStar.OpenNodeLinked` | src/hybrid_a_star_route_planner.py:55-63 | The selected open node's parent link is sound and it is rounded consistently |
| `HybridAStar.CloseKeepsOpenInv` | src/hybrid_a_star_route_planner.py:65-69 | Moving the selected node to the closed set keeps the rest of the open set well formed |
| `HybridAStar.CloseKeepsClosedInv` | src/hybrid_a_star_route_planner.py:65-69 | The closed set stays filed and linked, with every parent ranked before its child |
| `HybridAStar.AfterExpand` | src/hybrid_a_star_route_planner.py:65-93 | After closing and expanding, the search invariant holds again and the closed key is new and within the finite universe of keys |
| `RealMath.Distance` | src/hybrid_a_star_route_planner.py:138-142 | The Euclidean distance is non-negative and zero between equal points |
| `RealMath.DistanceAlongUnitVector` | src/hybrid_a_star_route_planner.py:118-119 | Moving 1 or 2 along a unit direction covers exactly that distance |

## Left out

- Plotting, the escape-key exit, `print` calls and both `main` functions are
  user-interface code with nothing to verify. The `show_process` flag only
  switches plotting, so the searches do not take it.
- Floating point is not modelled. Costs and poses are exact reals, and the
  library functions are abstract with the few axioms in `RealMath.Valid`. Trig
  and square-root accuracy are not modelled.
- Python's `round` (round-half-to-even) is an abstract `real -> int`.
- Tie-breaking: `min` over a dict takes the first minimiser in insertion
  order. The model allows any minimiser.
- Concrete end-to-end runs, such as a route from (14, 4) to (69, 59) in the
  real car park, would need the search to be executed and are not claimed.
- AStar.WalkStaysClosed: stated only for start columns 0 .. width. Further
  left or right the start's grid index can equal an interior cell's index. No
  allowed move leaves such a start, so `AStar.ExhaustedMeansUnreachable` covers
  those starts without this lemma.
- AStar.SearchRoute: optimality of the returned route is not stated. It would
  need a proof about the heuristic and the never-reopen policy. Only soundness
  and completeness of the result are proved.
- HybridAStar.SearchRoute: there is no completeness statement. Rounding poses
  to cells deliberately forgoes completeness.
- HybridAStar.SearchRoute: when the start pose rounds to a cell whose grid index
  is -1, its successors carry parent -1. Reconstruction then stops one step
  before the start, so "ends at the start" is stated only for other starts.
- HybridAStar.Successors: the order of successors (steering-major, chord-minor)
  is not stated. It only affects tie-breaking, which is left open.
- The `self.goal_node` field is replaced by parameters. Both planners overwrite
  it with the found node only so that `process_route` can start there.
