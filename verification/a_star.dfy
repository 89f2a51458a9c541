/**
 The grid planner (src/a_star_route_planner.py): an 8-connected best-first
 search over integer cells. The open and closed sets are maps keyed by grid
 index. A node is relaxed only to a strictly lower cost. A closed key is never
 reopened. The goal test is exact equality of cells. The route is rebuilt by
 following parent keys from the goal back to the start.
 */
module AStar {
  import opened RealMath
  import opened CarPark
  import opened SearchSets

  /** `Node`: a cell, the cost of reaching it, and the closed-set key of its
      parent, or -1 for the root. */
  datatype Node = Node(x: int, y: int, cost: real, parentIndex: int)

  /** One row of the motion table: a move and what it costs. */
  datatype Motion = Motion(dx: int, dy: int, cost: real)

  function CellOf(n: Node): Cell
  {
    Cell(n.x, n.y)
  }

  // ---------------------------------------------------------------------------
  // Motion model

  /** The motion table built by `AStarRoutePlanner.__init__`. */
  function Motions(m: MathLib): seq<Motion>
  {
    [ Motion(1, 0, 1.0), Motion(0, 1, 1.0), Motion(-1, 0, 1.0), Motion(0, -1, 1.0),
      Motion(-1, -1, m.sqrt(2.0)), Motion(-1, 1, m.sqrt(2.0)),
      Motion(1, -1, m.sqrt(2.0)), Motion(1, 1, m.sqrt(2.0)) ]
  }

  /** A king move: one step to any of the eight neighbouring cells. */
  predicate IsMotionDelta(dx: int, dy: int)
  {
    -1 <= dx <= 1 && -1 <= dy <= 1 && (dx != 0 || dy != 0)
  }

  /** What a move should cost: 1 along an axis, sqrt(2) on a diagonal. */
  function StepCost(m: MathLib, dx: int, dy: int): real
  {
    if dx == 0 || dy == 0 then 1.0 else m.sqrt(2.0)
  }

  /** The row of the motion table that makes a given king move. */
  function MotionIndex(m: MathLib, dx: int, dy: int): (i: int)
    requires IsMotionDelta(dx, dy)
    ensures 0 <= i < |Motions(m)|
    ensures Motions(m)[i].dx == dx && Motions(m)[i].dy == dy
  {
    if dy == 0 then (if dx == 1 then 0 else 2)
    else if dx == 0 then (if dy == 1 then 1 else 3)
    else if dx == -1 then (if dy == -1 then 4 else 5)
    else (if dy == -1 then 6 else 7)
  }

  /** The table has exactly eight rows; they are the eight king moves, each
      once, with cost 1 on the axes and sqrt(2) on the diagonals. */
  lemma MotionTable(m: MathLib)
    ensures |Motions(m)| == 8
    ensures forall i :: 0 <= i < |Motions(m)| ==>
      && IsMotionDelta(Motions(m)[i].dx, Motions(m)[i].dy)
      && Motions(m)[i].cost == StepCost(m, Motions(m)[i].dx, Motions(m)[i].dy)
    ensures forall i, j :: 0 <= i < j < |Motions(m)| ==>
      Motions(m)[i].dx != Motions(m)[j].dx || Motions(m)[i].dy != Motions(m)[j].dy
    ensures forall dx, dy :: IsMotionDelta(dx, dy) <==>
      exists i :: 0 <= i < |Motions(m)| && Motions(m)[i].dx == dx && Motions(m)[i].dy == dy
  {
    forall dx, dy | IsMotionDelta(dx, dy)
      ensures exists i :: 0 <= i < |Motions(m)| && Motions(m)[i].dx == dx && Motions(m)[i].dy == dy
    {
      var i := MotionIndex(m, dx, dy);
    }
  }

  // ---------------------------------------------------------------------------
  // Heuristic and selection score

  /** `calculate_heuristic_cost`: Euclidean distance from the node to the goal. */
  function HeuristicCost(m: MathLib, goal: Cell, n: Node): (r: real)
    ensures Valid(m) ==> r >= 0.0
    ensures Valid(m) && CellOf(n) == goal ==> r == 0.0
  {
    Distance(m, n.x as real, n.y as real, goal.x as real, goal.y as real)
  }

  /** The key `min` orders the open set by: cost so far plus heuristic. */
  function Score(m: MathLib, goal: Cell, n: Node): real
  {
    n.cost + HeuristicCost(m, goal, n)
  }

  // ---------------------------------------------------------------------------
  // Walks and routes

  /** One move the planner may make: a king move the car park allows. */
  predicate Step(cp: Park, a: Cell, b: Cell)
  {
    IsMotionDelta(b.x - a.x, b.y - a.y) && IsNotCrossedObstacle(cp, a, b)
  }

  /** No allowed move leaves a cell left of column 0 or right of column
      `width`: every allowed move ends strictly inside the car park. */
  lemma NoStepFromOutside(cp: Park, c: Cell)
    requires c.x < 0 || c.x > cp.width
    ensures forall d :: !Step(cp, c, d)
  {
  }

  /** A sequence of cells, each one allowed move from the one before. */
  ghost predicate IsWalk(cp: Park, w: seq<Cell>)
  {
    forall i :: 0 <= i < |w| - 1 ==> Step(cp, w[i], w[i + 1])
  }

  /** The second cell of a walk, if any, is one allowed move from the first. */
  lemma WalkHead(cp: Park, w: seq<Cell>)
    requires IsWalk(cp, w)
    ensures |w| > 1 ==> Step(cp, w[0], w[1])
  {
  }

  /** Some walk leads from `source` to `target`. */
  ghost predicate Reachable(cp: Park, source: Cell, target: Cell)
  {
    exists w :: IsWalk(cp, w) && |w| > 0 && w[0] == source && w[|w| - 1] == target
  }

  /** Coordinate lists read goal first: each cell is one allowed move away
      from the cell listed after it. */
  ghost predicate IsRoute(cp: Park, rx: seq<int>, ry: seq<int>)
  {
    |rx| == |ry| && forall i :: 0 <= i < |rx| - 1 ==> Step(cp, Cell(rx[i + 1], ry[i + 1]), Cell(rx[i], ry[i]))
  }

  /** Read backwards, a non-empty route is a walk from its last cell to its
      first. */
  lemma RouteGivesWalk(cp: Park, rx: seq<int>, ry: seq<int>)
    requires IsRoute(cp, rx, ry) && |rx| > 0
    ensures Reachable(cp, Cell(rx[|rx| - 1], ry[|ry| - 1]), Cell(rx[0], ry[0]))
  {
    var n := |rx|;
    var w := seq(n, i requires 0 <= i < n => Cell(rx[n - 1 - i], ry[n - 1 - i]));
    forall i | 0 <= i < n - 1
      ensures Step(cp, w[i], w[i + 1])
    {
      var j := n - 2 - i;
      assert Step(cp, Cell(rx[j + 1], ry[j + 1]), Cell(rx[j], ry[j]));
    }
    assert IsWalk(cp, w);
    assert w[0] == Cell(rx[n - 1], ry[n - 1]) && w[n - 1] == Cell(rx[0], ry[0]);
  }

  // ---------------------------------------------------------------------------
  // Search invariants

  /** The node `search_route` seeds the open set with. */
  function StartNode(start: Cell): Node
  {
    Node(start.x, start.y, 0.0, NoParent)
  }

  /** Node n is stored under its own grid index, and it is the start cell or
      a cell strictly inside the car park. */
  ghost predicate Filed(cp: Park, start: Cell, k: int, n: Node)
  {
    KeyOf(cp, CellOf(n)) == k && (CellOf(n) == start || Interior(cp, CellOf(n)))
  }

  /** For a start column in 0 .. width, two cells that may be filed (the
      start or interior cells) share a key only when they are the same cell. */
  lemma SameKeySameCell(cp: Park, start: Cell, a: Cell, b: Cell)
    requires 0 <= start.x <= cp.width
    requires a == start || Interior(cp, a)
    requires b == start || Interior(cp, b)
    requires KeyOf(cp, a) == KeyOf(cp, b)
    ensures a == b
  {
    if a != b {
      if a.x == cp.width {
        WidthColumnKeyApart(cp, a.y, b);
      } else if b.x == cp.width {
        WidthColumnKeyApart(cp, b.y, a);
      } else {
        GridIndexInjective(cp, a.x, a.y, b.x, b.y);
      }
    }
  }

  /** Node n's parent link: the root is the start node; any other node's parent
      key is closed and one allowed move away. */
  ghost predicate Linked(cp: Park, start: Cell, closed: map<int, Node>, n: Node)
  {
    if n.parentIndex == NoParent then n == StartNode(start)
    else n.parentIndex in closed && Step(cp, CellOf(closed[n.parentIndex]), CellOf(n))
  }

  /** The closed set, with `rank` the order in which its keys were closed:
      every parent was closed before its child, so parent links never cycle. */
  ghost predicate ClosedInv(cp: Park, start: Cell, closed: map<int, Node>, rank: map<int, nat>)
  {
    && closed.Keys == rank.Keys
    && forall k :: k in closed ==>
         && Filed(cp, start, k, closed[k])
         && Linked(cp, start, closed, closed[k])
         && (closed[k].parentIndex != NoParent ==> rank[closed[k].parentIndex] < rank[k])
  }

  /** The open set: disjoint from the closed set, every node filed under its
      own key with its parent closed. */
  ghost predicate OpenInv(cp: Park, start: Cell, open: map<int, Node>, closed: map<int, Node>)
  {
    && open.Keys !! closed.Keys
    && forall k :: k in open ==> Filed(cp, start, k, open[k]) && Linked(cp, start, closed, open[k])
  }

  /** Every allowed move out of cell c leads to a key already open or closed. */
  ghost predicate Covered(cp: Park, c: Cell, open: map<int, Node>, closed: map<int, Node>)
  {
    forall n :: Step(cp, c, n) ==> KeyOf(cp, n) in open || KeyOf(cp, n) in closed
  }

  /** Coverage survives any growth of the seen keys. */
  lemma CoveredGrows(cp: Park, c: Cell, open: map<int, Node>, closed: map<int, Node>,
                     open': map<int, Node>, closed': map<int, Node>)
    requires Covered(cp, c, open, closed)
    requires open.Keys + closed.Keys <= open'.Keys + closed'.Keys
    ensures Covered(cp, c, open', closed')
  {
  }

  /** A cell with an interior king-move neighbour has a non-negative key, so
      its key is never the root marker. */
  lemma NeighbourKeyNonNegative(cp: Park, c: Cell, n: Cell)
    requires Interior(cp, n) && IsMotionDelta(n.x - c.x, n.y - c.y)
    ensures KeyOf(cp, c) >= 0
  {
    assert c.y * cp.width >= 0;
  }

  /** The successors the motion loop of `search_route` builds from `current`
      (closed under key `ck`), one per row of the motion table: each is one
      king move away, costs the move's cost more, and names `ck` as parent;
      the eight of them reach eight different cells. */
  function Successors(m: MathLib, current: Node, ck: int): (r: seq<Node>)
    ensures |r| == 8
    ensures forall i :: 0 <= i < |r| ==>
      && r[i].parentIndex == ck
      && IsMotionDelta(r[i].x - current.x, r[i].y - current.y)
      && r[i].cost == current.cost + StepCost(m, r[i].x - current.x, r[i].y - current.y)
    ensures forall i, j :: 0 <= i < j < |r| ==> CellOf(r[i]) != CellOf(r[j])
  {
    MotionTable(m);
    seq(8, i requires 0 <= i < 8 =>
      Node(current.x + Motions(m)[i].dx, current.y + Motions(m)[i].dy,
           current.cost + Motions(m)[i].cost, ck))
  }

  /** Every king move out of `current` is among its successors. */
  function SuccessorIndex(m: MathLib, current: Node, ck: int, c: Cell): (i: int)
    requires IsMotionDelta(c.x - current.x, c.y - current.y)
    ensures 0 <= i < |Successors(m, current, ck)|
    ensures CellOf(Successors(m, current, ck)[i]) == c
  {
    MotionIndex(m, c.x - current.x, c.y - current.y)
  }

  /** Node n is the unchanged entry of `before` at key k, or a successor of
      `current` (parent key `ck`, one allowed move, the move's cost added) that
      is strictly cheaper than what `before` held at k. */
  ghost predicate KeptOrImproved(cp: Park, m: MathLib, current: Node, ck: int,
                                 before: map<int, Node>, k: int, n: Node)
  {
    || (k in before && n == before[k])
    || (&& n.parentIndex == ck
        && Step(cp, CellOf(current), CellOf(n))
        && n.cost == current.cost + StepCost(m, n.x - current.x, n.y - current.y)
        && (k in before ==> n.cost < before[k].cost))
  }

  /** Each of the first i successors that the move check lets through and
      whose key is not closed is open at a cost no higher than its own. */
  ghost predicate Offered(cp: Park, current: Node, succ: seq<Node>, open: map<int, Node>,
                          closed: map<int, Node>, i: nat)
  {
    forall j :: 0 <= j < i && j < |succ| && IsNotCrossedObstacle(cp, CellOf(current), CellOf(succ[j]))
                && KeyOf(cp, CellOf(succ[j])) !in closed ==>
      KeyOf(cp, CellOf(succ[j])) in open && open[KeyOf(cp, CellOf(succ[j]))].cost <= succ[j].cost
  }

  /** What the motion loop of `Expand` keeps after i rounds: the open set is
      well formed, has only grown, by interior keys, every entry is kept or
      improved, every allowed one of the first i successors is seen, and
      those not closed are open at no more than their cost. */
  ghost predicate ExpandInv(cp: Park, m: MathLib, start: Cell, current: Node, ck: int,
                            succ: seq<Node>, open0: map<int, Node>, open: map<int, Node>,
                            closed: map<int, Node>, i: nat)
  {
    && i <= |succ|
    && OpenInv(cp, start, open, closed)
    && open0.Keys <= open.Keys <= open0.Keys + InteriorKeys(cp)
    && (forall k :: k in open ==> KeptOrImproved(cp, m, current, ck, open0, k, open[k]))
    && (forall j :: 0 <= j < i && Step(cp, CellOf(current), CellOf(succ[j])) ==>
          KeyOf(cp, CellOf(succ[j])) in open || KeyOf(cp, CellOf(succ[j])) in closed)
    && Offered(cp, current, succ, open, closed, i)
  }

  /** Offering an allowed successor whose key is not closed keeps the open set
      well formed and adds only the successor's (interior) key. */
  lemma OfferKeepsOpenInv(cp: Park, m: MathLib, start: Cell, current: Node, ck: int,
                          open0: map<int, Node>, open: map<int, Node>,
                          closed: map<int, Node>, next: Node, r: map<int, Node>)
    requires ck in closed && closed[ck] == current && Filed(cp, start, ck, current)
    requires OpenInv(cp, start, open, closed)
    requires open0.Keys <= open.Keys
    requires forall k :: k in open ==> KeptOrImproved(cp, m, current, ck, open0, k, open[k])
    requires next.parentIndex == ck && Step(cp, CellOf(current), CellOf(next))
    requires next.cost == current.cost + StepCost(m, next.x - current.x, next.y - current.y)
    requires KeyOf(cp, CellOf(next)) !in closed
    requires r == Relax(open, KeyOf(cp, CellOf(next)), next, (n: Node) => n.cost)
    ensures OpenInv(cp, start, r, closed)
    ensures forall k :: k in r ==> KeptOrImproved(cp, m, current, ck, open0, k, r[k])
    ensures KeyOf(cp, CellOf(next)) in InteriorKeys(cp)
  {
    var nk := KeyOf(cp, CellOf(next));
    NeighbourKeyNonNegative(cp, CellOf(current), CellOf(next));
    InteriorKey(cp, CellOf(next));
    assert Linked(cp, start, closed, next);
    if nk in open && r[nk] != open[nk] && nk in open0 {
      assert next.cost < open[nk].cost;
      assert KeptOrImproved(cp, m, current, ck, open0, nk, open[nk]);
      assert open[nk].cost <= open0[nk].cost;
    }
    assert KeptOrImproved(cp, m, current, ck, open0, nk, r[nk]);
  }

  /** Relaxing one key lowers no stored cost, so earlier successors stay
      offered, and the relaxed successor is offered too. */
  lemma OfferKeepsOffered(cp: Park, current: Node, succ: seq<Node>, open: map<int, Node>,
                          r: map<int, Node>, closed: map<int, Node>, i: nat)
    requires i < |succ| && Offered(cp, current, succ, open, closed, i)
    requires r == Relax(open, KeyOf(cp, CellOf(succ[i])), succ[i], (n: Node) => n.cost)
    ensures Offered(cp, current, succ, r, closed, i + 1)
  {
    RelaxKeepsCheapest(open, KeyOf(cp, CellOf(succ[i])), succ[i], (n: Node) => n.cost);
  }

  /** One round of the motion loop keeps `ExpandInv`: `open'` is `open` after
      the i-th successor was offered, or `open` itself when the move is blocked
      or the successor's key is closed. */
  lemma ExpandRound(cp: Park, m: MathLib, start: Cell, current: Node, ck: int,
                    succ: seq<Node>, open0: map<int, Node>, open: map<int, Node>,
                    open': map<int, Node>, closed: map<int, Node>, i: nat)
    requires ck in closed && closed[ck] == current && Filed(cp, start, ck, current)
    requires ExpandInv(cp, m, start, current, ck, succ, open0, open, closed, i)
    requires i < |succ|
    requires succ[i].parentIndex == ck && IsMotionDelta(succ[i].x - current.x, succ[i].y - current.y)
    requires succ[i].cost == current.cost + StepCost(m, succ[i].x - current.x, succ[i].y - current.y)
    requires if IsNotCrossedObstacle(cp, CellOf(current), CellOf(succ[i])) && KeyOf(cp, CellOf(succ[i])) !in closed
             then open' == Relax(open, KeyOf(cp, CellOf(succ[i])), succ[i], (n: Node) => n.cost)
             else open' == open
    ensures ExpandInv(cp, m, start, current, ck, succ, open0, open', closed, i + 1)
  {
    var next := succ[i];
    if IsNotCrossedObstacle(cp, CellOf(current), CellOf(next)) && KeyOf(cp, CellOf(next)) !in closed {
      OfferKeepsOpenInv(cp, m, start, current, ck, open0, open, closed, next, open');
      OfferKeepsOffered(cp, current, succ, open, open', closed, i);
    }
  }

  // ---------------------------------------------------------------------------
  // Operations

  /** The loop over the motion table in `search_route`: offer each successor
      of the just-closed `current` (key `ck`) to the open set, unless the move
      is blocked or the successor's key is closed. */
  method Expand(cp: Park, m: MathLib, current: Node, ck: int, open0: map<int, Node>,
                closed: map<int, Node>, ghost start: Cell)
    returns (open: map<int, Node>)
    requires ck in closed && closed[ck] == current
    requires Filed(cp, start, ck, current)
    requires OpenInv(cp, start, open0, closed)
    ensures OpenInv(cp, start, open, closed)
    ensures open0.Keys <= open.Keys <= open0.Keys + InteriorKeys(cp)
    ensures Covered(cp, CellOf(current), open, closed)
    ensures forall k :: k in open ==> KeptOrImproved(cp, m, current, ck, open0, k, open[k])
    ensures var succ := Successors(m, current, ck);
      Offered(cp, current, succ, open, closed, |succ|)
  {
    var succ := Successors(m, current, ck);
    open := open0;
    var i := 0;
    while i < |succ|
      invariant ExpandInv(cp, m, start, current, ck, succ, open0, open, closed, i)
    {
      var next := succ[i];
      var nextIndex := GridIndex(cp, next.x, next.y);
      ghost var before := open;
      if IsNotCrossedObstacle(cp, CellOf(current), CellOf(next)) {
        if nextIndex !in closed {
          open := Relax(open, nextIndex, next, (n: Node) => n.cost);
        }
      }
      ExpandRound(cp, m, start, current, ck, succ, open0, before, open, closed, i);
      i := i + 1;
    }
    forall c | Step(cp, CellOf(current), c)
      ensures KeyOf(cp, c) in open || KeyOf(cp, c) in closed
    {
      var j := SuccessorIndex(m, current, ck, c);
    }
  }

  /** `process_route`: follow parent keys from `goalNode` through the closed
      set down to the root, collecting coordinates goal first. */
  method ProcessRoute(cp: Park, closed: map<int, Node>, goalNode: Node,
                      ghost start: Cell, ghost rank: map<int, nat>)
    returns (rx: seq<int>, ry: seq<int>)
    requires ClosedInv(cp, start, closed, rank)
    requires Linked(cp, start, closed, goalNode)
    ensures IsRoute(cp, rx, ry)
    ensures 1 <= |rx| <= |closed| + 1
    ensures rx[0] == goalNode.x && ry[0] == goalNode.y
    ensures rx[|rx| - 1] == start.x && ry[|ry| - 1] == start.y
    ensures |rx| == 1 <==> goalNode.parentIndex == NoParent
  {
    rx := [goalNode.x];
    ry := [goalNode.y];
    var node := goalNode;
    var parent := goalNode.parentIndex;
    ghost var visited: set<int> := {};
    while parent != NoParent
      invariant parent == node.parentIndex
      invariant Linked(cp, start, closed, node)
      invariant IsRoute(cp, rx, ry)
      invariant |rx| == |visited| + 1
      invariant rx[0] == goalNode.x && ry[0] == goalNode.y
      invariant rx[|rx| - 1] == node.x && ry[|ry| - 1] == node.y
      invariant |rx| == 1 ==> node == goalNode
      invariant goalNode.parentIndex == NoParent ==> |rx| == 1
      invariant visited <= closed.Keys
      invariant parent != NoParent ==> forall v :: v in visited ==> rank[parent] < rank[v]
      decreases closed.Keys - visited
    {
      var n := closed[parent];
      rx := rx + [n.x];
      ry := ry + [n.y];
      visited := visited + {parent};
      parent := n.parentIndex;
      node := n;
    }
    assert closed.Keys == visited + (closed.Keys - visited);
  }

  /** `search_route`: best-first search from `start` to `goal`. Returns the
      route goal first, or two empty lists when the open set runs out. */
  method SearchRoute(cp: Park, m: MathLib, start: Cell, goal: Cell)
    returns (rx: seq<int>, ry: seq<int>)
    ensures IsRoute(cp, rx, ry)
    ensures rx != [] ==> rx[0] == goal.x && ry[0] == goal.y
    ensures rx != [] ==> rx[|rx| - 1] == start.x && ry[|ry| - 1] == start.y
    ensures start == goal ==> rx == [goal.x] && ry == [goal.y]
    ensures rx != [] ==> Reachable(cp, start, goal)
    ensures rx == [] ==> !Reachable(cp, start, goal)
  {
    var startIndex := GridIndex(cp, start.x, start.y);
    var open := map[startIndex := StartNode(start)];
    var closed: map<int, Node> := map[];
    ghost var rank: map<int, nat> := map[];
    ghost var universe := Universe(cp, start);
    InitialSearchInv(cp, start, goal);
    var score := (n: Node) => Score(m, goal, n);
    while open != map[]
      invariant SearchInv(cp, start, goal, open, closed, rank)
      invariant start == goal ==> closed == map[]
      decreases universe - closed.Keys
    {
      var currentIndex := ArgMin(open, score);
      var current := open[currentIndex];
      if current.x == goal.x && current.y == goal.y {
        OpenNodeLinked(cp, start, open, closed, currentIndex);
        rx, ry := FinishAtGoal(cp, closed, current, start, goal, rank);
        return;
      }
      if closed == map[] {
        NothingClosedOnlyRoot(cp, start, open, closed, currentIndex);
      }
      ghost var seen := closed.Keys;
      open, closed, rank := CloseAndExpand(cp, m, goal, open, closed, currentIndex, start, rank);
      assert universe - closed.Keys < universe - seen;
    }
    rx, ry := [], [];
    ExhaustedMeansUnreachable(cp, start, goal, open, closed, rank);
  }

  /** The goal branch of `search_route`: the cheapest open node is on the
      goal, so its parent chain is the answer. */
  method FinishAtGoal(cp: Park, closed: map<int, Node>, goalNode: Node, ghost start: Cell,
                      ghost goal: Cell, ghost rank: map<int, nat>)
    returns (rx: seq<int>, ry: seq<int>)
    requires ClosedInv(cp, start, closed, rank) && Linked(cp, start, closed, goalNode)
    requires CellOf(goalNode) == goal
    requires start == goal ==> closed == map[]
    ensures IsRoute(cp, rx, ry) && rx != []
    ensures rx[0] == goal.x && ry[0] == goal.y
    ensures rx[|rx| - 1] == start.x && ry[|ry| - 1] == start.y
    ensures start == goal ==> rx == [goal.x] && ry == [goal.y]
    ensures Reachable(cp, start, goal)
  {
    rx, ry := ProcessRoute(cp, closed, goalNode, start, rank);
    RouteGivesWalk(cp, rx, ry);
  }

  /** The rest of one round of `search_route` once the cheapest open node is
      not the goal: move it from the open to the closed set and offer its
      successors. The closed set grows by exactly that key. */
  method CloseAndExpand(cp: Park, m: MathLib, goal: Cell, open: map<int, Node>,
                        closed: map<int, Node>, ck: int, ghost start: Cell,
                        ghost rank: map<int, nat>)
    returns (open': map<int, Node>, closed': map<int, Node>, ghost rank': map<int, nat>)
    requires SearchInv(cp, start, goal, open, closed, rank)
    requires ck in open && CellOf(open[ck]) != goal
    ensures SearchInv(cp, start, goal, open', closed', rank')
    ensures closed' == closed[ck := open[ck]] && closed'.Keys == closed.Keys + {ck}
    ensures ck in Universe(cp, start) && ck !in closed
  {
    var current := open[ck];
    CloseKeepsOpenInv(cp, start, open, closed, ck);
    closed' := closed[ck := current];
    rank' := rank[ck := |closed|];
    open' := Expand(cp, m, current, ck, open - {ck}, closed', start);
    AfterExpand(cp, start, goal, open, closed, rank, ck, open');
  }

  // ---------------------------------------------------------------------------
  // The main loop's invariant

  /** Every key the search can ever file: the start's and the interior ones. */
  ghost function Universe(cp: Park, start: Cell): set<int>
  {
    InteriorKeys(cp) + {KeyOf(cp, start)}
  }

  /** No closed node sits on the goal cell. */
  ghost predicate AvoidsGoal(goal: Cell, closed: map<int, Node>)
  {
    forall k :: k in closed ==> CellOf(closed[k]) != goal
  }

  /** Every closed cell's allowed moves lead to keys already seen. */
  ghost predicate AllCovered(cp: Park, open: map<int, Node>, closed: map<int, Node>)
  {
    forall k :: k in closed ==> Covered(cp, CellOf(closed[k]), open, closed)
  }

  /** The start's key has been seen. */
  ghost predicate StartSeen(cp: Park, start: Cell, open: map<int, Node>, closed: map<int, Node>)
  {
    KeyOf(cp, start) in open || KeyOf(cp, start) in closed
  }

  /** What holds at the top of the main loop of `search_route`: both sets are
      well formed, closing order is recorded in `rank`, no closed node sits on
      the goal, every closed cell's allowed moves lead to seen keys, the start
      has been seen, and only filable keys are open. */
  ghost predicate SearchInv(cp: Park, start: Cell, goal: Cell, open: map<int, Node>,
                            closed: map<int, Node>, rank: map<int, nat>)
  {
    && OpenInv(cp, start, open, closed)
    && ClosedInv(cp, start, closed, rank)
    && RankedBelow(rank, |closed|)
    && AvoidsGoal(goal, closed)
    && AllCovered(cp, open, closed)
    && StartSeen(cp, start, open, closed)
    && open.Keys <= Universe(cp, start)
  }

  /** An open node's parent link is sound. */
  lemma OpenNodeLinked(cp: Park, start: Cell, open: map<int, Node>, closed: map<int, Node>, k: int)
    requires OpenInv(cp, start, open, closed) && k in open
    ensures Linked(cp, start, closed, open[k])
  {
  }

  /** While nothing is closed, the only node the open set can hold is the
      start node. */
  lemma NothingClosedOnlyRoot(cp: Park, start: Cell, open: map<int, Node>, closed: map<int, Node>, k: int)
    requires OpenInv(cp, start, open, closed) && closed == map[] && k in open
    ensures open[k] == StartNode(start)
  {
    assert Linked(cp, start, closed, open[k]);
  }

  /** The search starts in a state satisfying the invariant. */
  lemma InitialSearchInv(cp: Park, start: Cell, goal: Cell)
    ensures SearchInv(cp, start, goal, map[KeyOf(cp, start) := StartNode(start)], map[], map[])
  {
  }

  /** Moving an open node to the closed set keeps the rest of the open set
      well formed. */
  lemma CloseKeepsOpenInv(cp: Park, start: Cell, open: map<int, Node>,
                          closed: map<int, Node>, ck: int)
    requires OpenInv(cp, start, open, closed)
    requires ck in open
    ensures OpenInv(cp, start, open - {ck}, closed[ck := open[ck]])
  {
  }

  /** Closing an open node, ranked after every closed one, keeps the closed
      set well formed. */
  lemma CloseKeepsClosedInv(cp: Park, start: Cell, open: map<int, Node>,
                            closed: map<int, Node>, rank: map<int, nat>, ck: int)
    requires OpenInv(cp, start, open, closed)
    requires ClosedInv(cp, start, closed, rank) && RankedBelow(rank, |closed|)
    requires ck in open
    ensures ClosedInv(cp, start, closed[ck := open[ck]], rank[ck := |closed|])
  {
    var current := open[ck];
    var closed' := closed[ck := current];
    var rank' := rank[ck := |closed|];
    assert Linked(cp, start, closed, current);
    forall k | k in closed'
      ensures Linked(cp, start, closed', closed'[k])
      ensures closed'[k].parentIndex != NoParent ==> rank'[closed'[k].parentIndex] < rank'[k]
    {
      if k != ck {
        assert Linked(cp, start, closed, closed[k]);
      }
    }
  }

  /** Coverage after an expansion: the old closed cells stay covered because
      no seen key is lost, and the new one is covered by the expansion. */
  lemma CoveredAfterExpand(cp: Park, open: map<int, Node>, closed: map<int, Node>,
                           ck: int, n: Node, open': map<int, Node>)
    requires AllCovered(cp, open, closed)
    requires open.Keys <= open'.Keys + {ck}
    requires Covered(cp, CellOf(n), open', closed[ck := n])
    ensures AllCovered(cp, open', closed[ck := n])
  {
    var closed' := closed[ck := n];
    forall k | k in closed'
      ensures Covered(cp, CellOf(closed'[k]), open', closed')
    {
      if k != ck {
        CoveredGrows(cp, CellOf(closed[k]), open, closed, open', closed');
      }
    }
  }

  /** After the just-closed node is expanded, the invariant holds again, and
      the closed set has grown by one key of the universe. */
  lemma AfterExpand(cp: Park, start: Cell, goal: Cell, open: map<int, Node>,
                    closed: map<int, Node>, rank: map<int, nat>, ck: int,
                    open': map<int, Node>)
    requires SearchInv(cp, start, goal, open, closed, rank)
    requires ck in open && CellOf(open[ck]) != goal
    requires OpenInv(cp, start, open', closed[ck := open[ck]])
    requires (open - {ck}).Keys <= open'.Keys <= (open - {ck}).Keys + InteriorKeys(cp)
    requires Covered(cp, CellOf(open[ck]), open', closed[ck := open[ck]])
    ensures SearchInv(cp, start, goal, open', closed[ck := open[ck]], rank[ck := |closed|])
    ensures ck in Universe(cp, start) && ck !in closed
  {
    var n := open[ck];
    var closed' := closed[ck := n];
    var rank' := rank[ck := |closed|];
    CloseKeepsClosedInv(cp, start, open, closed, rank, ck);
    ClosingAddsOne(closed, ck, n);
    assert RankedBelow(rank', |closed'|);
    assert AvoidsGoal(goal, closed');
    CoveredAfterExpand(cp, open, closed, ck, n, open');
    assert StartSeen(cp, start, open', closed');
  }

  // ---------------------------------------------------------------------------
  // Completeness

  /** When the open set is empty, every cell of a walk from the start is the
      cell of the closed node filed under its key. */
  lemma {:induction false} WalkStaysClosed(cp: Park, start: Cell, open: map<int, Node>,
                                           closed: map<int, Node>, rank: map<int, nat>,
                                           w: seq<Cell>, i: nat)
    requires ClosedInv(cp, start, closed, rank)
    requires open == map[] && AllCovered(cp, open, closed)
    requires KeyOf(cp, start) in closed && 0 <= start.x <= cp.width
    requires IsWalk(cp, w) && |w| > 0 && w[0] == start && i < |w|
    ensures KeyOf(cp, w[i]) in closed && CellOf(closed[KeyOf(cp, w[i])]) == w[i]
    decreases i
  {
    if i == 0 {
      var n := closed[KeyOf(cp, start)];
      SameKeySameCell(cp, start, CellOf(n), start);
    } else {
      WalkStaysClosed(cp, start, open, closed, rank, w, i - 1);
      var c := w[i - 1];
      assert Step(cp, c, w[i]);
      assert Covered(cp, CellOf(closed[KeyOf(cp, c)]), open, closed);
      var n := closed[KeyOf(cp, w[i])];
      SameKeySameCell(cp, start, CellOf(n), w[i]);
    }
  }

  /** An exhausted search closed every cell reachable from the start and none
      of them is the goal, so the goal is unreachable. A start outside columns
      0 .. width has no allowed move, so only the start itself is reachable,
      and it is not the goal since something was closed. */
  lemma ExhaustedMeansUnreachable(cp: Park, start: Cell, goal: Cell, open: map<int, Node>,
                                  closed: map<int, Node>, rank: map<int, nat>)
    requires SearchInv(cp, start, goal, open, closed, rank) && open == map[]
    requires start == goal ==> closed == map[]
    ensures !Reachable(cp, start, goal)
  {
    if 0 <= start.x <= cp.width {
      forall w | IsWalk(cp, w) && |w| > 0 && w[0] == start
        ensures w[|w| - 1] != goal
      {
        WalkStaysClosed(cp, start, open, closed, rank, w, |w| - 1);
      }
    } else {
      assert KeyOf(cp, start) in closed;
      NoStepFromOutside(cp, start);
      forall w | IsWalk(cp, w) && |w| > 0 && w[0] == start
        ensures w[|w| - 1] != goal
      {
        WalkHead(cp, w);
      }
    }
  }
}
