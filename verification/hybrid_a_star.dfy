/**
 The hybrid planner (src/hybrid_a_star_route_planner.py): a best-first search
 over continuous poses (x, y, heading) whose open and closed sets are keyed by
 the grid index of the pose rounded to a cell. Each expansion drives the car
 along fourteen arcs (seven steering angles, two chord lengths). A node is
 accepted as the goal once its position is within 1 of the goal's. The route
 is rebuilt from the parent keys and carries the continuous coordinates.
 */
module HybridAStar {
  import opened RealMath
  import opened CarPark
  import opened SearchSets

  /** `Pose`: a position and a heading in radians. */
  datatype Pose = Pose(x: real, y: real, theta: real)

  /** `Node`: a pose, its rounded cell, the cost of reaching it, the steering
      angle that produced it and the closed-set key of its parent (-1 for the
      root). */
  datatype Node = Node(pose: Pose, discreteX: int, discreteY: int, cost: real,
                       steering: real, parentIndex: int)

  /** The node's discrete cell is its pose rounded with the library's `round`. */
  predicate Discretized(m: MathLib, n: Node)
  {
    n.discreteX == m.round(n.pose.x) && n.discreteY == m.round(n.pose.y)
  }

  /** `Node(pose, cost, steering, parent)`: the constructor rounds the pose. */
  function NewNode(m: MathLib, pose: Pose, cost: real, steering: real, parent: int): (n: Node)
    ensures Discretized(m, n)
    ensures n.pose == pose && n.cost == cost && n.steering == steering && n.parentIndex == parent
  {
    Node(pose, m.round(pose.x), m.round(pose.y), cost, steering, parent)
  }

  function DCell(n: Node): Cell
  {
    Cell(n.discreteX, n.discreteY)
  }

  /** The cell a continuous point rounds to. */
  function RoundCell(m: MathLib, x: real, y: real): Cell
  {
    Cell(m.round(x), m.round(y))
  }

  // ---------------------------------------------------------------------------
  // Motion model

  const Wheelbase: real := 2.7

  /** The steering inputs in radians, in the order the planner tries them. */
  const SteeringInputs: seq<real> :=
    [Radians(-40), Radians(-20), Radians(-10), Radians(0), Radians(10), Radians(20), Radians(40)]

  /** The arc lengths driven per expansion, in the order the planner tries them. */
  const ChordLengths: seq<real> := [2.0, 1.0]

  /** The motion model `HybridAStarRoutePlanner.__init__` sets up: the steering
      inputs and the chord lengths each expansion combines (the wheelbase is
      the constant `Wheelbase`). */
  datatype MotionModel = MotionModel(steeringInputs: seq<real>, chordLengths: seq<real>)

  /** The planner's own motion model. */
  function DefaultMotionModel(): MotionModel
  {
    MotionModel(SteeringInputs, ChordLengths)
  }

  /** `change_radians_range`: the angle brought into (-Pi, Pi] through atan2. */
  function ChangeRadiansRange(m: MathLib, angle: real): (r: real)
    ensures Valid(m) ==> -Pi < r <= Pi
  {
    m.atan2(m.sin(angle), m.cos(angle))
  }

  /** `calculate_next_node`: drive `chord` along an arc of the given steering
      angle from `current` (closed under key `ck`). The new heading is kept in
      (-Pi, Pi]; the node pays the chord length, remembers its steering and
      names `ck` as parent. */
  function CalculateNextNode(m: MathLib, current: Node, ck: int, chord: real, steering: real): (r: Node)
    ensures Discretized(m, r)
    ensures r.cost == current.cost + chord && r.steering == steering && r.parentIndex == ck
    ensures Valid(m) ==> -Pi < r.pose.theta <= Pi
  {
    var theta := ChangeRadiansRange(m, current.pose.theta + chord * m.tan(steering) / Wheelbase);
    NewNode(m, Pose(current.pose.x + chord * m.cos(theta), current.pose.y + chord * m.sin(theta), theta),
            current.cost + chord, steering, ck)
  }

  /** Each move ends exactly one chord length from where it started. */
  lemma StepLength(m: MathLib, current: Node, ck: int, chord: real, steering: real)
    requires Valid(m) && chord in ChordLengths
    ensures var next := CalculateNextNode(m, current, ck, chord, steering);
      Distance(m, next.pose.x, next.pose.y, current.pose.x, current.pose.y) == chord
  {
    var next := CalculateNextNode(m, current, ck, chord, steering);
    DistanceAlongUnitVector(m, next.pose.x, next.pose.y, current.pose.x, current.pose.y, chord,
                            m.cos(next.pose.theta), m.sin(next.pose.theta));
  }

  /** The nodes one steering input yields, one per chord length in order. */
  function ChordsFor(m: MathLib, current: Node, ck: int, steering: real, chords: seq<real>): seq<Node>
  {
    seq(|chords|, i requires 0 <= i < |chords| => CalculateNextNode(m, current, ck, chords[i], steering))
  }

  /** The nested comprehension of `search_route`: for each steering input in
      turn, the nodes of every chord length. */
  function ArcsFor(m: MathLib, current: Node, ck: int, steerings: seq<real>, chords: seq<real>): seq<Node>
    decreases |steerings|
  {
    if steerings == [] then []
    else ChordsFor(m, current, ck, steerings[0], chords) + ArcsFor(m, current, ck, steerings[1..], chords)
  }

  /** `ArcsFor` yields one node per pair of a steering input and a chord
      length. */
  lemma {:induction false} ArcsForLength(m: MathLib, current: Node, ck: int, steerings: seq<real>, chords: seq<real>)
    ensures |ArcsFor(m, current, ck, steerings, chords)| == |steerings| * |chords|
    decreases |steerings|
  {
    if steerings != [] {
      ArcsForLength(m, current, ck, steerings[1..], chords);
      assert |steerings| * |chords| == |chords| + (|steerings| - 1) * |chords|;
    }
  }

  /** Every node of `ArcsFor` names `ck` as parent, is rounded consistently,
      steers by one of the inputs and pays one of the chord lengths. */
  lemma {:induction false} ArcsForNodes(m: MathLib, current: Node, ck: int, steerings: seq<real>, chords: seq<real>)
    ensures forall n :: n in ArcsFor(m, current, ck, steerings, chords) ==>
      && n.parentIndex == ck
      && Discretized(m, n)
      && n.steering in steerings
      && n.cost - current.cost in chords
    decreases |steerings|
  {
    if steerings != [] {
      var head := ChordsFor(m, current, ck, steerings[0], chords);
      var rest := ArcsFor(m, current, ck, steerings[1..], chords);
      ArcsForNodes(m, current, ck, steerings[1..], chords);
      forall n: Node | n in head + rest
        ensures n.parentIndex == ck && Discretized(m, n) && n.steering in steerings
        ensures n.cost - current.cost in chords
      {
        if n in head {
          var i :| 0 <= i < |head| && head[i] == n;
          assert n.cost - current.cost == chords[i];
        } else {
          assert n.steering in steerings[1..];
        }
      }
    }
  }

  /** Every pair of a steering input and a chord length yields a node of
      `ArcsFor`. */
  lemma {:induction false} ArcsForComplete(m: MathLib, current: Node, ck: int, steerings: seq<real>, chords: seq<real>)
    ensures forall s, c :: 0 <= s < |steerings| && 0 <= c < |chords| ==>
      CalculateNextNode(m, current, ck, chords[c], steerings[s]) in ArcsFor(m, current, ck, steerings, chords)
    decreases |steerings|
  {
    if steerings != [] {
      var head := ChordsFor(m, current, ck, steerings[0], chords);
      var rest := ArcsFor(m, current, ck, steerings[1..], chords);
      ArcsForComplete(m, current, ck, steerings[1..], chords);
      forall s, c | 0 <= s < |steerings| && 0 <= c < |chords|
        ensures CalculateNextNode(m, current, ck, chords[c], steerings[s]) in head + rest
      {
        if s == 0 {
          assert head[c] == CalculateNextNode(m, current, ck, chords[c], steerings[0]);
        } else {
          assert steerings[s] == steerings[1..][s - 1];
        }
      }
    }
  }

  /** The successors `search_route` builds from `current` (closed under key
      `ck`): every one names `ck` as parent, is rounded consistently, steers
      by one of the model's inputs and costs one of its chord lengths more
      than `current`. */
  function Successors(m: MathLib, mm: MotionModel, current: Node, ck: int): (r: seq<Node>)
    ensures forall n :: n in r ==>
      && n.parentIndex == ck && Discretized(m, n)
      && n.steering in mm.steeringInputs && n.cost - current.cost in mm.chordLengths
  {
    ArcsForNodes(m, current, ck, mm.steeringInputs, mm.chordLengths);
    ArcsFor(m, current, ck, mm.steeringInputs, mm.chordLengths)
  }

  /** With the planner's own motion model there are fourteen successors: each
      steers by one of the seven inputs and costs 2 or 1 more than `current`,
      and every input is driven with both chord lengths. */
  lemma DefaultSuccessors(m: MathLib, current: Node, ck: int)
    ensures var r := Successors(m, DefaultMotionModel(), current, ck);
      && |r| == 14
      && (forall i :: 0 <= i < |r| ==>
            r[i].steering in SteeringInputs
            && (r[i].cost == current.cost + 2.0 || r[i].cost == current.cost + 1.0))
      && (forall s, c :: 0 <= s < |SteeringInputs| && 0 <= c < |ChordLengths| ==>
            CalculateNextNode(m, current, ck, ChordLengths[c], SteeringInputs[s]) in r)
  {
    var r := Successors(m, DefaultMotionModel(), current, ck);
    ArcsForLength(m, current, ck, SteeringInputs, ChordLengths);
    ArcsForNodes(m, current, ck, SteeringInputs, ChordLengths);
    ArcsForComplete(m, current, ck, SteeringInputs, ChordLengths);
    forall i | 0 <= i < |r|
      ensures r[i].cost == current.cost + 2.0 || r[i].cost == current.cost + 1.0
    {
      assert r[i] in r;
      assert r[i].cost - current.cost in ChordLengths;
    }
  }

  // ---------------------------------------------------------------------------
  // Heuristic

  /** `calculate_distance_to_end`: Euclidean distance from the pose to the goal. */
  function DistanceToEnd(m: MathLib, pose: Pose, goal: Pose): (r: real)
    ensures Valid(m) ==> r >= 0.0
    ensures Valid(m) && pose.x == goal.x && pose.y == goal.y ==> r == 0.0
  {
    Distance(m, pose.x, pose.y, goal.x, goal.y)
  }

  /** `calculate_heuristic_cost`: distance to the goal, plus a tenth of the
      heading error, plus ten times the magnitude of the steering angle. */
  function HeuristicCost(m: MathLib, goal: Pose, n: Node): real
  {
    DistanceToEnd(m, n.pose, goal)
      + Abs(ChangeRadiansRange(m, n.pose.theta - goal.theta)) * 0.1
      + Abs(n.steering) * 10.0
  }

  /** The heuristic lies between the distance plus the steering penalty and
      that plus the largest heading penalty, 0.1 * Pi. */
  lemma HeuristicBounds(m: MathLib, goal: Pose, n: Node)
    requires Valid(m)
    ensures var d := DistanceToEnd(m, n.pose, goal);
      d + Abs(n.steering) * 10.0 <= HeuristicCost(m, goal, n) <= d + 0.1 * Pi + Abs(n.steering) * 10.0
  {
    var a := ChangeRadiansRange(m, n.pose.theta - goal.theta);
    assert Abs(a) <= Pi;
  }

  /** The heuristic is not admissible: a node standing on the goal position,
      where the goal test already succeeds and nothing remains to pay, still
      scores at least ten times its steering magnitude. */
  lemma HeuristicNotAdmissible(m: MathLib, goal: Pose, n: Node)
    requires Valid(m) && n.pose.x == goal.x && n.pose.y == goal.y
    ensures DistanceToEnd(m, n.pose, goal) == 0.0
    ensures HeuristicCost(m, goal, n) >= Abs(n.steering) * 10.0
    ensures n.steering != 0.0 ==> HeuristicCost(m, goal, n) > 0.0
  {
    HeuristicBounds(m, goal, n);
  }

  /** Every steering input other than straight ahead is at least 10 degrees
      off centre. */
  lemma SteeringMagnitudes()
    ensures forall v :: v in SteeringInputs ==> v == 0.0 || Abs(v) >= Radians(10)
  {
    assert SteeringInputs == [Radians(-40), Radians(-20), Radians(-10), Radians(0), Radians(10), Radians(20), Radians(40)];
    assert Radians(-40) == -4.0 * Radians(10) && Radians(-20) == -2.0 * Radians(10);
    assert Radians(40) == 4.0 * Radians(10) && Radians(20) == 2.0 * Radians(10);
    assert Radians(-10) == -Radians(10) && Radians(0) == 0.0 && Radians(10) > 0.0;
  }

  /** Every successor that steers pays at least ten times the radian measure
      of 10 degrees on top of its distance to the goal. */
  lemma SteeringPenalty(m: MathLib, goal: Pose, current: Node, ck: int, i: int)
    requires Valid(m) && 0 <= i < |Successors(m, DefaultMotionModel(), current, ck)|
    ensures var n := Successors(m, DefaultMotionModel(), current, ck)[i];
      n.steering == 0.0 || HeuristicCost(m, goal, n) >= DistanceToEnd(m, n.pose, goal) + Radians(10) * 10.0
  {
    var n := Successors(m, DefaultMotionModel(), current, ck)[i];
    DefaultSuccessors(m, current, ck);
    HeuristicBounds(m, goal, n);
    SteeringMagnitudes();
  }

  /** The key `min` orders the open set by: cost so far plus heuristic. */
  function Score(m: MathLib, goal: Pose, n: Node): real
  {
    n.cost + HeuristicCost(m, goal, n)
  }

  // ---------------------------------------------------------------------------
  // Routes

  /** Coordinate lists read goal first: the cell each point rounds to is
      reachable without crossing an obstacle from the cell the next point
      rounds to. */
  ghost predicate IsRoute(cp: Park, m: MathLib, rx: seq<real>, ry: seq<real>)
  {
    |rx| == |ry| && forall i :: 0 <= i < |rx| - 1 ==>
      IsNotCrossedObstacle(cp, RoundCell(m, rx[i + 1], ry[i + 1]), RoundCell(m, rx[i], ry[i]))
  }

  // ---------------------------------------------------------------------------
  // Search invariants

  /** The cell the start pose rounds to. */
  function StartCell(m: MathLib, start: Pose): Cell
  {
    RoundCell(m, start.x, start.y)
  }

  /** The node `search_route` seeds the open set with. */
  function StartNode(m: MathLib, start: Pose): Node
  {
    NewNode(m, start, 0.0, 0.0, NoParent)
  }

  /** The collision query on the discrete cells of two nodes. */
  predicate Traversable(cp: Park, a: Node, b: Node)
  {
    IsNotCrossedObstacle(cp, DCell(a), DCell(b))
  }

  /** Node n is rounded consistently, stored under the grid index of its
      cell, and that cell is the start's or strictly inside the car park. */
  ghost predicate Filed(cp: Park, m: MathLib, start: Pose, k: int, n: Node)
  {
    && Discretized(m, n)
    && KeyOf(cp, DCell(n)) == k
    && (DCell(n) == StartCell(m, start) || Interior(cp, DCell(n)))
  }

  /** Node n is the start node, or its parent key is closed and the move
      from the parent's cell to n's cell is allowed. */
  ghost predicate Linked(cp: Park, m: MathLib, start: Pose, closed: map<int, Node>, n: Node)
  {
    || n == StartNode(m, start)
    || (n.parentIndex in closed && Traversable(cp, closed[n.parentIndex], n))
  }

  /** The closed set, with `rank` the order its keys were closed in: a parent
      other than the root marker was closed before its child. */
  ghost predicate ClosedInv(cp: Park, m: MathLib, start: Pose, closed: map<int, Node>, rank: map<int, nat>)
  {
    && closed.Keys == rank.Keys
    && forall k :: k in closed ==>
         && Filed(cp, m, start, k, closed[k])
         && Linked(cp, m, start, closed, closed[k])
         && (closed[k].parentIndex != NoParent ==>
               closed[k].parentIndex in closed && rank[closed[k].parentIndex] < rank[k])
  }

  /** The open set: disjoint from the closed set, every node filed under its
      own key and linked to the closed set. */
  ghost predicate OpenInv(cp: Park, m: MathLib, start: Pose, open: map<int, Node>, closed: map<int, Node>)
  {
    && open.Keys !! closed.Keys
    && forall k :: k in open ==> Filed(cp, m, start, k, open[k]) && Linked(cp, m, start, closed, open[k])
  }

  /** A closed key -1 can only be the start's own key: interior keys are
      positive. So a chain that stops at parent -1 without reaching the start
      node means the start pose rounds to a cell with key -1. */
  lemma RootKeyIsStartKey(cp: Park, m: MathLib, start: Pose, closed: map<int, Node>, rank: map<int, nat>)
    requires ClosedInv(cp, m, start, closed, rank) && NoParent in closed
    ensures KeyOf(cp, StartCell(m, start)) == NoParent
  {
    var n := closed[NoParent];
    if DCell(n) != StartCell(m, start) {
      InteriorKey(cp, DCell(n));
    }
  }

  /** An open node's parent link is sound. */
  lemma OpenNodeLinked(cp: Park, m: MathLib, start: Pose, open: map<int, Node>, closed: map<int, Node>, k: int)
    requires OpenInv(cp, m, start, open, closed) && k in open
    ensures Linked(cp, m, start, closed, open[k]) && Discretized(m, open[k])
  {
  }

  /** Node n is the unchanged entry of `before` at key k, or one of the
      successors `succ` of `current` (parent key `ck`, rounded consistently,
      reached by an allowed move) that is strictly cheaper than what `before`
      held at k. */
  ghost predicate KeptOrImproved(cp: Park, m: MathLib, current: Node, ck: int, succ: seq<Node>,
                                 before: map<int, Node>, k: int, n: Node)
  {
    || (k in before && n == before[k])
    || (&& n in succ
        && n.parentIndex == ck
        && Discretized(m, n)
        && Traversable(cp, current, n)
        && (k in before ==> n.cost < before[k].cost))
  }

  /** Each of the first i successors that the collision query lets through
      and whose key is not closed is open at a cost no higher than its own. */
  ghost predicate Offered(cp: Park, current: Node, succ: seq<Node>, open: map<int, Node>,
                          closed: map<int, Node>, i: nat)
  {
    forall j :: 0 <= j < i && j < |succ| && Traversable(cp, current, succ[j])
                && KeyOf(cp, DCell(succ[j])) !in closed ==>
      KeyOf(cp, DCell(succ[j])) in open && open[KeyOf(cp, DCell(succ[j]))].cost <= succ[j].cost
  }

  /** What the successor loop of `Expand` keeps after i rounds. */
  ghost predicate ExpandInv(cp: Park, m: MathLib, start: Pose, current: Node, ck: int,
                            succ: seq<Node>, open0: map<int, Node>, open: map<int, Node>,
                            closed: map<int, Node>, i: nat)
  {
    && i <= |succ|
    && OpenInv(cp, m, start, open, closed)
    && open0.Keys <= open.Keys <= open0.Keys + InteriorKeys(cp)
    && (forall k :: k in open ==> KeptOrImproved(cp, m, current, ck, succ, open0, k, open[k]))
    && Offered(cp, current, succ, open, closed, i)
  }

  /** Offering an allowed successor whose key is not closed keeps the open set
      well formed and adds only the successor's (interior) key. */
  lemma OfferKeepsOpenInv(cp: Park, m: MathLib, start: Pose, current: Node, ck: int,
                          succ: seq<Node>, open0: map<int, Node>, open: map<int, Node>,
                          closed: map<int, Node>, next: Node, r: map<int, Node>)
    requires ck in closed && closed[ck] == current
    requires OpenInv(cp, m, start, open, closed)
    requires open0.Keys <= open.Keys
    requires forall k :: k in open ==> KeptOrImproved(cp, m, current, ck, succ, open0, k, open[k])
    requires next in succ && next.parentIndex == ck && Discretized(m, next) && Traversable(cp, current, next)
    requires KeyOf(cp, DCell(next)) !in closed
    requires r == Relax(open, KeyOf(cp, DCell(next)), next, (n: Node) => n.cost)
    ensures OpenInv(cp, m, start, r, closed)
    ensures forall k :: k in r ==> KeptOrImproved(cp, m, current, ck, succ, open0, k, r[k])
    ensures KeyOf(cp, DCell(next)) in InteriorKeys(cp)
  {
    var nk := KeyOf(cp, DCell(next));
    InteriorKey(cp, DCell(next));
    assert Linked(cp, m, start, closed, next);
    if nk in open && r[nk] != open[nk] && nk in open0 {
      assert next.cost < open[nk].cost;
      assert KeptOrImproved(cp, m, current, ck, succ, open0, nk, open[nk]);
      assert open[nk].cost <= open0[nk].cost;
    }
    assert KeptOrImproved(cp, m, current, ck, succ, open0, nk, r[nk]);
  }

  /** Relaxing one key lowers no stored cost, so earlier successors stay
      offered, and the relaxed successor is offered too. */
  lemma OfferKeepsOffered(cp: Park, current: Node, succ: seq<Node>, open: map<int, Node>,
                          r: map<int, Node>, closed: map<int, Node>, i: nat)
    requires i < |succ| && Offered(cp, current, succ, open, closed, i)
    requires r == Relax(open, KeyOf(cp, DCell(succ[i])), succ[i], (n: Node) => n.cost)
    ensures Offered(cp, current, succ, r, closed, i + 1)
  {
    RelaxKeepsCheapest(open, KeyOf(cp, DCell(succ[i])), succ[i], (n: Node) => n.cost);
  }

  /** One round of the successor loop keeps `ExpandInv`: `open'` is `open`
      after the i-th successor was offered, or `open` itself when the move is
      blocked or the successor's key is closed. */
  lemma ExpandRound(cp: Park, m: MathLib, start: Pose, current: Node, ck: int,
                    succ: seq<Node>, open0: map<int, Node>, open: map<int, Node>,
                    open': map<int, Node>, closed: map<int, Node>, i: nat)
    requires ck in closed && closed[ck] == current
    requires ExpandInv(cp, m, start, current, ck, succ, open0, open, closed, i)
    requires i < |succ| && succ[i].parentIndex == ck && Discretized(m, succ[i])
    requires if Traversable(cp, current, succ[i]) && KeyOf(cp, DCell(succ[i])) !in closed
             then open' == Relax(open, KeyOf(cp, DCell(succ[i])), succ[i], (n: Node) => n.cost)
             else open' == open
    ensures ExpandInv(cp, m, start, current, ck, succ, open0, open', closed, i + 1)
  {
    var next := succ[i];
    if Traversable(cp, current, next) && KeyOf(cp, DCell(next)) !in closed {
      OfferKeepsOpenInv(cp, m, start, current, ck, succ, open0, open, closed, next, open');
      OfferKeepsOffered(cp, current, succ, open, open', closed, i);
    }
  }

  // ---------------------------------------------------------------------------
  // Operations

  /** The successor loop of `search_route`: offer each successor the motion
      model yields for the just-closed `current` (key `ck`) to the open set,
      unless the move between their rounded cells is blocked or the
      successor's key is closed. */
  method Expand(cp: Park, m: MathLib, mm: MotionModel, current: Node, ck: int, open0: map<int, Node>,
                closed: map<int, Node>, ghost start: Pose)
    returns (open: map<int, Node>)
    requires ck in closed && closed[ck] == current
    requires OpenInv(cp, m, start, open0, closed)
    ensures OpenInv(cp, m, start, open, closed)
    ensures open0.Keys <= open.Keys <= open0.Keys + InteriorKeys(cp)
    ensures var succ := Successors(m, mm, current, ck);
      && (forall k :: k in open ==> KeptOrImproved(cp, m, current, ck, succ, open0, k, open[k]))
      && Offered(cp, current, succ, open, closed, |succ|)
  {
    var succ := Successors(m, mm, current, ck);
    open := open0;
    var i := 0;
    while i < |succ|
      invariant ExpandInv(cp, m, start, current, ck, succ, open0, open, closed, i)
    {
      var next := succ[i];
      ghost var before := open;
      if IsNotCrossedObstacle(cp, DCell(current), DCell(next)) {
        var nextIndex := GridIndex(cp, next.discreteX, next.discreteY);
        if nextIndex !in closed {
          open := Relax(open, nextIndex, next, (n: Node) => n.cost);
        }
      }
      ExpandRound(cp, m, start, current, ck, succ, open0, before, open, closed, i);
      i := i + 1;
    }
  }

  /** The state of the reconstruction loop after visiting the keys in
      `visited`: `rx`, `ry` is a route from the goal node's position to that
      of `node`, one point per visited key plus the goal, and the next
      parent key is ranked below every visited one. */
  ghost predicate ChainInv(cp: Park, m: MathLib, start: Pose, closed: map<int, Node>,
                           rank: map<int, nat>, goalNode: Node, rx: seq<real>, ry: seq<real>,
                           node: Node, visited: set<int>)
  {
    && Linked(cp, m, start, closed, node) && Discretized(m, node)
    && IsRoute(cp, m, rx, ry)
    && |rx| == |visited| + 1
    && rx[0] == goalNode.pose.x && ry[0] == goalNode.pose.y
    && rx[|rx| - 1] == node.pose.x && ry[|ry| - 1] == node.pose.y
    && (|rx| == 1 ==> node == goalNode)
    && (goalNode.parentIndex == NoParent ==> |rx| == 1)
    && visited <= closed.Keys
    && (node.parentIndex != NoParent ==>
          node.parentIndex in rank && forall v :: v in visited && v in rank ==> rank[node.parentIndex] < rank[v])
  }

  /** One round of the reconstruction loop: stepping to the parent keeps the
      loop state and visits a key not visited before. */
  lemma ChainStep(cp: Park, m: MathLib, start: Pose, closed: map<int, Node>, rank: map<int, nat>,
                  goalNode: Node, rx: seq<real>, ry: seq<real>, node: Node, visited: set<int>)
    requires ClosedInv(cp, m, start, closed, rank)
    requires ChainInv(cp, m, start, closed, rank, goalNode, rx, ry, node, visited)
    requires node.parentIndex != NoParent
    ensures node.parentIndex in closed && node.parentIndex !in visited
    ensures var n := closed[node.parentIndex];
      ChainInv(cp, m, start, closed, rank, goalNode, rx + [n.pose.x], ry + [n.pose.y],
               n, visited + {node.parentIndex})
  {
    ParentStep(cp, m, start, closed, rank, node);
    var n := closed[node.parentIndex];
    RouteExtend(cp, m, rx, ry, n.pose.x, n.pose.y);
  }

  /** `process_route`: follow parent keys from `goalNode` through the closed
      set until the root marker -1, collecting the continuous coordinates goal
      first. The last point is the start pose unless the start pose rounds to
      a cell whose key is itself -1. */
  method ProcessRoute(cp: Park, m: MathLib, closed: map<int, Node>, goalNode: Node,
                      ghost start: Pose, ghost rank: map<int, nat>)
    returns (rx: seq<real>, ry: seq<real>)
    requires ClosedInv(cp, m, start, closed, rank)
    requires Linked(cp, m, start, closed, goalNode) && Discretized(m, goalNode)
    ensures IsRoute(cp, m, rx, ry)
    ensures 1 <= |rx| <= |closed| + 1
    ensures rx[0] == goalNode.pose.x && ry[0] == goalNode.pose.y
    ensures (rx[|rx| - 1] == start.x && ry[|ry| - 1] == start.y) || KeyOf(cp, StartCell(m, start)) == NoParent
    ensures |rx| == 1 <==> goalNode.parentIndex == NoParent
  {
    rx := [goalNode.pose.x];
    ry := [goalNode.pose.y];
    var node := goalNode;
    var parent := goalNode.parentIndex;
    ghost var visited: set<int> := {};
    while parent != NoParent
      invariant parent == node.parentIndex
      invariant ChainInv(cp, m, start, closed, rank, goalNode, rx, ry, node, visited)
      decreases closed.Keys - visited
    {
      ChainStep(cp, m, start, closed, rank, goalNode, rx, ry, node, visited);
      var n := closed[parent];
      rx := rx + [n.pose.x];
      ry := ry + [n.pose.y];
      visited := visited + {parent};
      parent := n.parentIndex;
      node := n;
    }
    assert closed.Keys == visited + (closed.Keys - visited);
    if node != StartNode(m, start) {
      RootKeyIsStartKey(cp, m, start, closed, rank);
    }
  }

  /** One step down a parent chain: a linked node that is not the root has
      its parent closed, and the parent is itself linked, rounded
      consistently, ranked before its own parent, and one allowed move from
      the node. */
  lemma ParentStep(cp: Park, m: MathLib, start: Pose, closed: map<int, Node>,
                   rank: map<int, nat>, node: Node)
    requires ClosedInv(cp, m, start, closed, rank)
    requires Linked(cp, m, start, closed, node) && node.parentIndex != NoParent
    ensures node.parentIndex in closed
    ensures var p := closed[node.parentIndex];
      && Linked(cp, m, start, closed, p) && Discretized(m, p)
      && IsNotCrossedObstacle(cp, DCell(p), DCell(node))
      && (p.parentIndex != NoParent ==> rank[p.parentIndex] < rank[node.parentIndex])
  {
  }

  /** Appending a point from which the old last point is one allowed move
      away extends a route. */
  lemma RouteExtend(cp: Park, m: MathLib, rx: seq<real>, ry: seq<real>, x: real, y: real)
    requires IsRoute(cp, m, rx, ry) && |rx| > 0
    requires IsNotCrossedObstacle(cp, RoundCell(m, x, y), RoundCell(m, rx[|rx| - 1], ry[|ry| - 1]))
    ensures IsRoute(cp, m, rx + [x], ry + [y])
  {
    var rx', ry' := rx + [x], ry + [y];
    forall i | 0 <= i < |rx'| - 1
      ensures IsNotCrossedObstacle(cp, RoundCell(m, rx'[i + 1], ry'[i + 1]), RoundCell(m, rx'[i], ry'[i]))
    {
      if i < |rx| - 1 {
        assert rx'[i + 1] == rx[i + 1] && ry'[i + 1] == ry[i + 1];
      }
    }
  }

  /** What `search_route` promises about the lists it returns: they form a
      route; a non-empty one starts within 1 of the goal and, unless the
      start pose's key is -1, ends at the start; and a start within 1 of the
      goal gives the single start point. */
  ghost predicate Answers(cp: Park, m: MathLib, start: Pose, goal: Pose, rx: seq<real>, ry: seq<real>)
  {
    && IsRoute(cp, m, rx, ry)
    && (rx != [] ==> DistanceToEnd(m, Pose(rx[0], ry[0], 0.0), goal) <= 1.0)
    && (rx != [] && KeyOf(cp, StartCell(m, start)) != NoParent ==>
          rx[|rx| - 1] == start.x && ry[|ry| - 1] == start.y)
    && (DistanceToEnd(m, start, goal) <= 1.0 ==> rx == [start.x] && ry == [start.y])
  }

  /** `search_route`: best-first search from `start` until some node comes
      within 1 of the goal position. Returns that node's route goal first, or
      two empty lists when the open set runs out. The planner itself passes
      `DefaultMotionModel()`. */
  method SearchRoute(cp: Park, m: MathLib, mm: MotionModel, start: Pose, goal: Pose)
    returns (rx: seq<real>, ry: seq<real>)
    ensures IsRoute(cp, m, rx, ry)
    ensures rx != [] ==> DistanceToEnd(m, Pose(rx[0], ry[0], 0.0), goal) <= 1.0
    ensures rx != [] && KeyOf(cp, StartCell(m, start)) != NoParent ==>
      rx[|rx| - 1] == start.x && ry[|ry| - 1] == start.y
    ensures DistanceToEnd(m, start, goal) <= 1.0 ==> rx == [start.x] && ry == [start.y]
  {
    var startNode := NewNode(m, start, 0.0, 0.0, NoParent);
    var startIndex := GridIndex(cp, startNode.discreteX, startNode.discreteY);
    InitialSearchInv(cp, m, start);
    rx, ry := Explore(cp, m, mm, start, goal, map[startIndex := startNode]);
  }

  /** The main loop of `search_route`, from the open set holding only the
      start node and an empty closed set. */
  method Explore(cp: Park, m: MathLib, mm: MotionModel, start: Pose, goal: Pose, open0: map<int, Node>)
    returns (rx: seq<real>, ry: seq<real>)
    requires SearchInv(cp, m, start, open0, map[], map[])
    ensures Answers(cp, m, start, goal, rx, ry)
  {
    var open := open0;
    var closed: map<int, Node> := map[];
    ghost var rank: map<int, nat> := map[];
    ghost var universe := Universe(cp, m, start);
    var score := (n: Node) => Score(m, goal, n);
    while open != map[]
      invariant SearchInv(cp, m, start, open, closed, rank)
      invariant DistanceToEnd(m, start, goal) <= 1.0 ==> closed == map[]
      decreases universe - closed.Keys
    {
      var currentIndex := ArgMin(open, score);
      if DistanceToEnd(m, open[currentIndex].pose, goal) <= 1.0 {
        rx, ry := FinishAtGoal(cp, m, open, closed, currentIndex, start, goal, rank);
        return;
      }
      StartFarFromGoal(cp, m, start, goal, open, closed, currentIndex);
      ghost var seen := closed.Keys;
      open, closed, rank := CloseAndExpand(cp, m, mm, open, closed, currentIndex, start, rank);
      assert universe - closed.Keys < universe - seen;
    }
    rx, ry := [], [];
  }

  /** The goal branch of `search_route`: the cheapest open node is within
      tolerance of the goal, so its parent chain is the answer. */
  method FinishAtGoal(cp: Park, m: MathLib, open: map<int, Node>, closed: map<int, Node>, ck: int,
                      ghost start: Pose, ghost goal: Pose, ghost rank: map<int, nat>)
    returns (rx: seq<real>, ry: seq<real>)
    requires SearchInv(cp, m, start, open, closed, rank) && ck in open
    requires DistanceToEnd(m, open[ck].pose, goal) <= 1.0
    requires DistanceToEnd(m, start, goal) <= 1.0 ==> closed == map[]
    ensures rx != [] && Answers(cp, m, start, goal, rx, ry)
  {
    OpenNodeLinked(cp, m, start, open, closed, ck);
    if closed == map[] {
      NothingClosedOnlyRoot(cp, m, start, open, closed, ck);
    }
    rx, ry := ProcessRoute(cp, m, closed, open[ck], start, rank);
  }

  /** The rest of one round of `search_route` once the cheapest open node is
      not within tolerance of the goal: move it from the open to the closed
      set and offer its successors. The closed set grows by exactly that key. */
  method CloseAndExpand(cp: Park, m: MathLib, mm: MotionModel, open: map<int, Node>,
                        closed: map<int, Node>, ck: int, ghost start: Pose,
                        ghost rank: map<int, nat>)
    returns (open': map<int, Node>, closed': map<int, Node>, ghost rank': map<int, nat>)
    requires SearchInv(cp, m, start, open, closed, rank)
    requires ck in open
    ensures SearchInv(cp, m, start, open', closed', rank')
    ensures closed' == closed[ck := open[ck]] && closed'.Keys == closed.Keys + {ck}
    ensures ck in Universe(cp, m, start) && ck !in closed
  {
    var current := open[ck];
    CloseKeepsOpenInv(cp, m, start, open, closed, ck);
    closed' := closed[ck := current];
    rank' := rank[ck := |closed|];
    open' := Expand(cp, m, mm, current, ck, open - {ck}, closed', start);
    AfterExpand(cp, m, start, open, closed, rank, ck, open');
  }

  // ---------------------------------------------------------------------------
  // The main loop's invariant

  /** Every key the search can ever file: the start's and the interior ones. */
  ghost function Universe(cp: Park, m: MathLib, start: Pose): set<int>
  {
    InteriorKeys(cp) + {KeyOf(cp, StartCell(m, start))}
  }

  /** The start's key has been seen. */
  ghost predicate StartSeen(cp: Park, m: MathLib, start: Pose, open: map<int, Node>, closed: map<int, Node>)
  {
    KeyOf(cp, StartCell(m, start)) in open || KeyOf(cp, StartCell(m, start)) in closed
  }

  /** What holds at the top of the main loop of `search_route`: both sets are
      well formed, closing order is recorded in `rank`, the start has been
      seen, and only filable keys are open. */
  ghost predicate SearchInv(cp: Park, m: MathLib, start: Pose, open: map<int, Node>,
                            closed: map<int, Node>, rank: map<int, nat>)
  {
    && OpenInv(cp, m, start, open, closed)
    && ClosedInv(cp, m, start, closed, rank)
    && RankedBelow(rank, |closed|)
    && StartSeen(cp, m, start, open, closed)
    && open.Keys <= Universe(cp, m, start)
  }

  /** The search starts in a state satisfying the invariant. */
  lemma InitialSearchInv(cp: Park, m: MathLib, start: Pose)
    ensures SearchInv(cp, m, start, map[KeyOf(cp, StartCell(m, start)) := StartNode(m, start)], map[], map[])
  {
  }

  /** While nothing is closed, the only node the open set can hold is the
      start node. */
  lemma NothingClosedOnlyRoot(cp: Park, m: MathLib, start: Pose, open: map<int, Node>,
                              closed: map<int, Node>, k: int)
    requires OpenInv(cp, m, start, open, closed) && closed == map[] && k in open
    ensures open[k] == StartNode(m, start)
  {
    assert Linked(cp, m, start, closed, open[k]);
  }

  /** If the search is still running and the start were within tolerance of
      the goal, nothing would be closed and the only open node would be the
      start itself; so an open node that misses the goal shows the start
      misses it too. */
  lemma StartFarFromGoal(cp: Park, m: MathLib, start: Pose, goal: Pose, open: map<int, Node>,
                         closed: map<int, Node>, k: int)
    requires OpenInv(cp, m, start, open, closed) && k in open
    requires DistanceToEnd(m, open[k].pose, goal) > 1.0
    requires DistanceToEnd(m, start, goal) <= 1.0 ==> closed == map[]
    ensures DistanceToEnd(m, start, goal) > 1.0
  {
    if closed == map[] {
      NothingClosedOnlyRoot(cp, m, start, open, closed, k);
    }
  }

  /** Moving an open node to the closed set keeps the rest of the open set
      well formed. */
  lemma CloseKeepsOpenInv(cp: Park, m: MathLib, start: Pose, open: map<int, Node>,
                          closed: map<int, Node>, ck: int)
    requires OpenInv(cp, m, start, open, closed)
    requires ck in open
    ensures OpenInv(cp, m, start, open - {ck}, closed[ck := open[ck]])
  {
  }

  /** Closing an open node, ranked after every closed one, keeps the closed
      set well formed. */
  lemma CloseKeepsClosedInv(cp: Park, m: MathLib, start: Pose, open: map<int, Node>,
                            closed: map<int, Node>, rank: map<int, nat>, ck: int)
    requires OpenInv(cp, m, start, open, closed)
    requires ClosedInv(cp, m, start, closed, rank) && RankedBelow(rank, |closed|)
    requires ck in open
    ensures ClosedInv(cp, m, start, closed[ck := open[ck]], rank[ck := |closed|])
  {
    var current := open[ck];
    var closed' := closed[ck := current];
    var rank' := rank[ck := |closed|];
    assert Linked(cp, m, start, closed, current);
    forall k | k in closed'
      ensures Linked(cp, m, start, closed', closed'[k])
      ensures closed'[k].parentIndex != NoParent ==>
        closed'[k].parentIndex in closed' && rank'[closed'[k].parentIndex] < rank'[k]
    {
      if k != ck {
        assert Linked(cp, m, start, closed, closed[k]);
      }
    }
  }

  /** After the just-closed node is expanded, the invariant holds again, and
      the closed set has grown by one key of the universe. */
  lemma AfterExpand(cp: Park, m: MathLib, start: Pose, open: map<int, Node>,
                    closed: map<int, Node>, rank: map<int, nat>, ck: int,
                    open': map<int, Node>)
    requires SearchInv(cp, m, start, open, closed, rank)
    requires ck in open
    requires OpenInv(cp, m, start, open', closed[ck := open[ck]])
    requires (open - {ck}).Keys <= open'.Keys <= (open - {ck}).Keys + InteriorKeys(cp)
    ensures SearchInv(cp, m, start, open', closed[ck := open[ck]], rank[ck := |closed|])
    ensures ck in Universe(cp, m, start) && ck !in closed
  {
    var n := open[ck];
    var closed' := closed[ck := n];
    var rank' := rank[ck := |closed|];
    CloseKeepsClosedInv(cp, m, start, open, closed, rank, ck);
    ClosingAddsOne(closed, ck, n);
    assert RankedBelow(rank', |closed'|);
    assert StartSeen(cp, m, start, open', closed');
  }
}
