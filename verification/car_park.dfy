/**
 The car park (src/car_park.py): a rectangular domain [0, width] x [0, height]
 with a list of blocked cells and a list of wall segments, the grid index both
 planners key their open and closed sets by, and the collision query they make
 for every move.
 */
module CarPark {

  /** An integer grid point (x, y). */
  datatype Cell = Cell(x: int, y: int)

  /** A wall segment from `a` to `b`. */
  datatype Segment = Segment(a: Cell, b: Cell)

  /** The obstacle map. It is built once and never changes afterwards. */
  datatype Park = Park(width: int, height: int, obstacles: seq<Cell>, obstacleLines: seq<Segment>)

  const Width: int := 82
  const Height: int := 63

  // ---------------------------------------------------------------------------
  // Grid index

  /** `get_grid_index`: the key of cell (x, y) in the planners' maps. */
  function GridIndex(cp: Park, x: int, y: int): int
  {
    x + y * cp.width
  }

  /** The grid index of a cell. */
  function KeyOf(cp: Park, c: Cell): int
  {
    GridIndex(cp, c.x, c.y)
  }

  /** A product of a positive factor k and a positive width is at least the width. */
  lemma MulAtLeast(k: int, w: int)
    requires k >= 1 && w > 0
    ensures k * w >= w
  {
    assert k * w == (k - 1) * w + w;
  }

  /** The grid index is injective on columns 0 .. width-1, whatever the rows. */
  lemma {:induction false} GridIndexInjective(cp: Park, x1: int, y1: int, x2: int, y2: int)
    requires 0 <= x1 < cp.width && 0 <= x2 < cp.width
    ensures GridIndex(cp, x1, y1) == GridIndex(cp, x2, y2) <==> x1 == x2 && y1 == y2
  {
    if GridIndex(cp, x1, y1) == GridIndex(cp, x2, y2) {
      assert x1 - x2 == (y2 - y1) * cp.width;
      if y1 < y2 {
        MulAtLeast(y2 - y1, cp.width);
      } else if y2 < y1 {
        MulAtLeast(y1 - y2, cp.width);
      }
    }
  }

  /** Outside those columns it is not: column `width` of row y shares its key
      with column 0 of row y + 1 (for the car park, (82, 0) and (0, 1) both
      map to 82). */
  lemma GridIndexCollidesAtWidth(cp: Park, y: int)
    ensures GridIndex(cp, cp.width, y) == GridIndex(cp, 0, y + 1)
  {
  }

  /** A cell strictly inside the outer boundary. */
  predicate Interior(cp: Park, c: Cell)
  {
    0 < c.x < cp.width && 0 < c.y < cp.height
  }

  /** The keys of all interior cells: a finite set. */
  ghost function InteriorKeys(cp: Park): set<int>
  {
    set x, y | 0 < x < cp.width && 0 < y < cp.height :: GridIndex(cp, x, y)
  }

  /** A cell in column `width` never shares its key with an interior cell:
      its key is a multiple of the width and an interior key is not. */
  lemma WidthColumnKeyApart(cp: Park, y: int, c: Cell)
    requires Interior(cp, c)
    ensures GridIndex(cp, cp.width, y) != GridIndex(cp, c.x, c.y)
  {
    var k := y + 1 - c.y;
    assert GridIndex(cp, cp.width, y) - c.y * cp.width == k * cp.width;
    if k >= 1 {
      MulAtLeast(k, cp.width);
    } else if k <= -1 {
      MulAtLeast(-k, cp.width);
    }
  }

  /** The key of an interior cell is one of the interior keys, and it lies
      above the width, so it is never the root sentinel -1. */
  lemma InteriorKey(cp: Park, c: Cell)
    requires Interior(cp, c)
    ensures GridIndex(cp, c.x, c.y) in InteriorKeys(cp)
    ensures GridIndex(cp, c.x, c.y) > cp.width
  {
    MulAtLeast(c.y, cp.width);
  }

  // ---------------------------------------------------------------------------
  // Orientation and segment crossing

  /** `ccw`: c lies strictly counter-clockwise of the ray a -> b. */
  predicate Ccw(a: Cell, b: Cell, c: Cell)
  {
    (c.y - a.y) * (b.x - a.x) > (b.y - a.y) * (c.x - a.x)
  }

  /** a, b and c lie on one line. */
  predicate Collinear(a: Cell, b: Cell, c: Cell)
  {
    (c.y - a.y) * (b.x - a.x) == (b.y - a.y) * (c.x - a.x)
  }

  /** `intersect`: each segment's endpoints fall on different sides of the
      other, with "on the line" counted as the clockwise side. */
  predicate Intersect(l1: Segment, l2: Segment)
  {
    && Ccw(l1.a, l2.a, l2.b) != Ccw(l1.b, l2.a, l2.b)
    && Ccw(l1.a, l1.b, l2.a) != Ccw(l1.a, l1.b, l2.b)
  }

  /** Orientation is invariant under cyclic rotation of its arguments. */
  lemma {:induction false} CcwRotate(a: Cell, b: Cell, c: Cell)
    ensures Ccw(a, b, c) == Ccw(b, c, a)
  {
    var lhs := (c.y - a.y) * (b.x - a.x) - (b.y - a.y) * (c.x - a.x);
    var rhs := (a.y - b.y) * (c.x - b.x) - (c.y - b.y) * (a.x - b.x);
    assert lhs == c.y * b.x - c.y * a.x - a.y * b.x - b.y * c.x + b.y * a.x + a.y * c.x;
    assert rhs == a.y * c.x - a.y * b.x - b.y * c.x - c.y * a.x + c.y * b.x + b.y * a.x;
  }

  /** Crossing does not depend on which segment is the wall. */
  lemma IntersectSymmetric(l1: Segment, l2: Segment)
    ensures Intersect(l1, l2) == Intersect(l2, l1)
  {
    CcwRotate(l2.a, l1.a, l1.b);
    CcwRotate(l2.b, l1.a, l1.b);
    CcwRotate(l2.a, l2.b, l1.a);
    CcwRotate(l2.a, l2.b, l1.b);
  }

  /** Two segments on one common line never cross: collinear overlaps are
      treated as free. */
  lemma CollinearNeverCrosses(l1: Segment, l2: Segment)
    requires Collinear(l1.a, l1.b, l2.a) && Collinear(l1.a, l1.b, l2.b)
    ensures !Intersect(l1, l2)
  {
  }

  /** Touching a wall is direction dependent: a move that leaves a point on the
      horizontal wall at y = 17 counts as a crossing, the mirror move that
      arrives on it does not. */
  lemma TouchingIsDirectional()
    ensures Intersect(Segment(Cell(11, 17), Cell(72, 17)), Segment(Cell(20, 17), Cell(20, 18)))
    ensures !Intersect(Segment(Cell(11, 17), Cell(72, 17)), Segment(Cell(20, 16), Cell(20, 17)))
  {
  }

  /** `any(intersect(line, s) for line in lines)`. */
  function CrossesAny(lines: seq<Segment>, s: Segment): (r: bool)
    ensures r <==> exists i :: 0 <= i < |lines| && Intersect(lines[i], s)
  {
    if lines == [] then false
    else if Intersect(lines[0], s) then true
    else
      var r := CrossesAny(lines[1..], s);
      assert forall i :: 1 <= i < |lines| ==> lines[i] == lines[1..][i - 1];
      r
  }

  /** `is_not_crossed_obstacle`: the move p -> q is allowed. */
  predicate IsNotCrossedObstacle(cp: Park, p: Cell, q: Cell)
  {
    && q !in cp.obstacles
    && Interior(cp, q)
    && !CrossesAny(cp.obstacleLines, Segment(p, q))
  }

  /** An allowed move ends on a free cell strictly inside the boundary and its
      segment crosses no wall; and every such move is allowed. */
  lemma TraversableIff(cp: Park, p: Cell, q: Cell)
    ensures IsNotCrossedObstacle(cp, p, q) <==>
      && q !in cp.obstacles
      && 0 < q.x < cp.width && 0 < q.y < cp.height
      && forall i :: 0 <= i < |cp.obstacleLines| ==> !Intersect(cp.obstacleLines[i], Segment(p, q))
  {
  }

  // ---------------------------------------------------------------------------
  // Construction of the car park

  /** `[f(lo), f(lo+1), ..., f(hi-1)]` flattened: the list a `for` loop over
      `range(lo, hi)` builds by appending `f(i)` in each round. */
  function FlatRange<T>(lo: int, hi: int, f: int -> seq<T>): seq<T>
    decreases hi - lo
  {
    if lo >= hi then [] else f(lo) + FlatRange(lo + 1, hi, f)
  }

  /** Every element of a flattened range comes from one of its rounds. */
  lemma {:induction false} FlatRangeMember<T>(lo: int, hi: int, f: int -> seq<T>, v: T)
    requires v in FlatRange(lo, hi, f)
    ensures exists i :: lo <= i < hi && v in f(i)
    decreases hi - lo
  {
    if lo < hi && v !in f(lo) {
      FlatRangeMember(lo + 1, hi, f, v);
    }
  }

  /** Every element of every round is in the flattened range. */
  lemma {:induction false} FlatRangeHas<T>(lo: int, hi: int, f: int -> seq<T>, i: int, v: T)
    requires lo <= i < hi && v in f(i)
    ensures v in FlatRange(lo, hi, f)
    decreases hi - lo
  {
    if lo < i {
      FlatRangeHas(lo + 1, hi, f, i, v);
    }
  }

  /** Rounds of k elements each give (hi - lo) * k elements. */
  lemma {:induction false} FlatRangeLength<T>(lo: int, hi: int, f: int -> seq<T>, k: nat)
    requires lo <= hi
    requires forall i :: lo <= i < hi ==> |f(i)| == k
    ensures |FlatRange(lo, hi, f)| == (hi - lo) * k
    decreases hi - lo
  {
    if lo < hi {
      FlatRangeLength(lo + 1, hi, f, k);
      assert (hi - lo) * k == (hi - lo - 1) * k + k;
    }
  }

  /** Round x of the frame loop: the bottom and top cells of column x. */
  function FrameRow(x: int): seq<Cell>
  {
    [Cell(x, 0), Cell(x, Height)]
  }

  /** Round y of the frame loop: the left and right cells of row y. */
  function FrameColumn(y: int): seq<Cell>
  {
    [Cell(0, y), Cell(Width, y)]
  }

  /** Round x of the partition loop: the cells at y = 17 and y = 40. */
  function PartitionCells(x: int): seq<Cell>
  {
    [Cell(x, 17), Cell(x, 40)]
  }

  /** Round (k, j) of the stub loops: five cells in column 4k + 11. */
  function StubCells(k: int, j: int): seq<Cell>
  {
    [ Cell(k * 4 + 11, j + 11), Cell(k * 4 + 11, j + 18), Cell(k * 4 + 11, j + 34),
      Cell(k * 4 + 11, j + 41), Cell(k * 4 + 11, j + 57) ]
  }

  /** Round k of the outer stub loop: the inner loop over six row offsets. */
  function StubColumn(k: int): seq<Cell>
  {
    FlatRange(0, 6, j => StubCells(k, j))
  }

  /** The outer frame of blocked cells: rows 0 and `height`, then columns 0
      and `width`. */
  function BorderCells(): seq<Cell>
  {
    FlatRange(0, Width + 1, FrameRow) + FlatRange(1, Height, FrameColumn)
  }

  /** The two horizontal partitions at y = 17 and y = 40. */
  function HorizontalCells(): seq<Cell>
  {
    FlatRange(11, Width - 10, PartitionCells)
  }

  /** The sixteen columns of vertical stubs. */
  function VerticalCells(): seq<Cell>
  {
    FlatRange(0, 16, StubColumn)
  }

  /** The three vertical wall segments of column 4k + 11. */
  function StubLines(k: int): seq<Segment>
  {
    [ Segment(Cell(k * 4 + 11, 11), Cell(k * 4 + 11, 24)),
      Segment(Cell(k * 4 + 11, 34), Cell(k * 4 + 11, 47)),
      Segment(Cell(k * 4 + 11, 57), Cell(k * 4 + 11, 63)) ]
  }

  /** The wall segments in construction order: the outer frame, the two
      partitions, then three per stub column. */
  function ObstacleLines(): seq<Segment>
  {
    [ Segment(Cell(0, 0), Cell(0, Height)),
      Segment(Cell(0, 0), Cell(Width, 0)),
      Segment(Cell(Width, 0), Cell(Width, Height)),
      Segment(Cell(0, Height), Cell(Width, Height)),
      Segment(Cell(11, 17), Cell(Width - 10, 17)),
      Segment(Cell(11, 40), Cell(Width - 10, 40)) ]
    + FlatRange(0, 16, StubLines)
  }

  /** `CarPark.__init__`. */
  function NewCarPark(): Park
  {
    Park(Width, Height, BorderCells() + HorizontalCells() + VerticalCells(), ObstacleLines())
  }

  /** A cell on the layout's lines: a frame row or column, one of the two
      partitions, or a stub column 4k + 11. */
  predicate OnLayout(c: Cell)
  {
    || c.x == 0 || c.x == Width || c.y == 0 || c.y == Height || c.y == 17 || c.y == 40
    || exists k :: 0 <= k < 16 && c.x == k * 4 + 11
  }

  /** The stub cells of column k < 16 lie in column 4k + 11, rows 11 .. 62. */
  lemma StubColumnInBounds(k: int, c: Cell)
    requires 0 <= k < 16 && c in StubColumn(k)
    ensures c.x == k * 4 + 11 && 11 <= c.y <= 62
  {
    FlatRangeMember(0, 6, j => StubCells(k, j), c);
  }

  /** So the cells of the first n <= 16 stub columns lie on stub columns in
      [11, 71] x [11, 62]. */
  lemma StubColumnsInBounds(n: int, c: Cell)
    requires 0 <= n <= 16 && c in FlatRange(0, n, StubColumn)
    ensures 11 <= c.x <= 71 && 11 <= c.y <= 62
    ensures exists k :: 0 <= k < 16 && c.x == k * 4 + 11
  {
    FlatRangeMember(0, n, StubColumn, c);
    var k :| 0 <= k < n && c in StubColumn(k);
    StubColumnInBounds(k, c);
  }

  /** The frame cells of rounds 0 .. n-1 of the first loop lie on the bottom
      or top row of [0, 82] x [0, 63]. */
  lemma FrameRowsInBounds(n: int, c: Cell)
    requires n <= Width + 1 && c in FlatRange(0, n, FrameRow)
    ensures 0 <= c.x <= Width && (c.y == 0 || c.y == Height)
  {
    FlatRangeMember(0, n, FrameRow, c);
  }

  /** The frame cells of rounds 1 .. n-1 of the second loop lie on its left
      or right column. */
  lemma FrameColumnsInBounds(n: int, c: Cell)
    requires n <= Height && c in FlatRange(1, n, FrameColumn)
    ensures (c.x == 0 || c.x == Width) && 0 <= c.y <= Height
  {
    FlatRangeMember(1, n, FrameColumn, c);
  }

  /** The partition cells of rounds 11 .. n-1 lie on y = 17 or y = 40. */
  lemma PartitionsInBounds(n: int, c: Cell)
    requires n <= Width - 10 && c in FlatRange(11, n, PartitionCells)
    ensures 0 <= c.x <= Width && (c.y == 17 || c.y == 40)
  {
    FlatRangeMember(11, n, PartitionCells, c);
  }

  /** Every constructed blocked cell lies in [0, 82] x [0, 63], on the
      layout's lines. */
  lemma ObstaclesInBounds()
    ensures forall c :: c in NewCarPark().obstacles ==>
      0 <= c.x <= Width && 0 <= c.y <= Height && OnLayout(c)
  {
    forall c | c in NewCarPark().obstacles
      ensures 0 <= c.x <= Width && 0 <= c.y <= Height && OnLayout(c)
    {
      if c in VerticalCells() {
        StubColumnsInBounds(16, c);
      } else if c in HorizontalCells() {
        PartitionsInBounds(Width - 10, c);
      } else if c in FlatRange(1, Height, FrameColumn) {
        FrameColumnsInBounds(Height, c);
      } else {
        FrameRowsInBounds(Width + 1, c);
      }
    }
  }

  /** The stub segments of the first n <= 16 columns run upwards along a
      stub column. */
  lemma StubLinesShape(n: int, l: Segment)
    requires 0 <= n <= 16 && l in FlatRange(0, n, StubLines)
    ensures l.a.x == l.b.x && l.a.y < l.b.y
    ensures exists k :: 0 <= k < 16 && l.a.x == k * 4 + 11
  {
    FlatRangeMember(0, n, StubLines, l);
  }

  /** The wall list holds 4 outer, 2 horizontal and 16 x 3 vertical
      segments: 54 in all. */
  lemma ObstacleLineCount()
    ensures |NewCarPark().obstacleLines| == 54
  {
    FlatRangeLength(0, 16, StubLines, 3);
  }

  /** The outer frame has 2 x 83 + 2 x 62 = 290 blocked cells. */
  lemma BorderCount()
    ensures |BorderCells()| == 290
  {
    FlatRangeLength(0, Width + 1, FrameRow, 2);
    FlatRangeLength(1, Height, FrameColumn, 2);
  }

  /** The two partitions have 2 x 61 = 122 blocked cells. */
  lemma HorizontalCount()
    ensures |HorizontalCells()| == 122
  {
    FlatRangeLength(11, Width - 10, PartitionCells, 2);
  }

  /** The stubs have 16 x 6 x 5 = 480 blocked cells. */
  lemma VerticalCount()
    ensures |VerticalCells()| == 480
  {
    forall k | 0 <= k < 16
      ensures |StubColumn(k)| == 30
    {
      FlatRangeLength(0, 6, j => StubCells(k, j), 5);
    }
    FlatRangeLength(0, 16, StubColumn, 30);
  }

  /** The blocked-cell list has 290 frame, 122 partition and 480 stub cells:
      892 in all. */
  lemma ObstacleCount()
    ensures |NewCarPark().obstacles| == 892
  {
    BorderCount();
    HorizontalCount();
    VerticalCount();
  }

  /** A wall running upwards along column 11, or along a column right of 12,
      does not cross the move from (11, 17) to (12, 16). */
  lemma VerticalWallMissesMove(l: Segment)
    requires l.a.x == l.b.x && l.a.y < l.b.y && (l.a.x == 11 || l.a.x > 12)
    ensures !Intersect(l, Segment(Cell(11, 17), Cell(12, 16)))
  {
    var d := l.b.y - l.a.y;
    if l.a.x > 12 {
      MulAtLeast(d, l.a.x - 12);
      assert d * (11 - l.a.x) == -(d * (l.a.x - 11));
      MulAtLeast(d, l.a.x - 11);
      assert d * (12 - l.a.x) == -(d * (l.a.x - 12));
    }
  }

  /** No stub wall crosses the move from (11, 17) to (12, 16). */
  lemma StubWallsMissMove(n: int)
    requires 0 <= n <= 16
    ensures forall l :: l in FlatRange(0, n, StubLines) ==> !Intersect(l, Segment(Cell(11, 17), Cell(12, 16)))
  {
    forall l | l in FlatRange(0, n, StubLines)
      ensures !Intersect(l, Segment(Cell(11, 17), Cell(12, 16)))
    {
      StubLinesShape(n, l);
      VerticalWallMissesMove(l);
    }
  }

  /** The first six walls (the frame and the two partitions) miss the move
      from (11, 17) to (12, 16) as well. */
  lemma WallsMissMove()
    ensures forall l :: l in ObstacleLines() ==> !Intersect(l, Segment(Cell(11, 17), Cell(12, 16)))
  {
    var outer := [ Segment(Cell(0, 0), Cell(0, Height)),
                   Segment(Cell(0, 0), Cell(Width, 0)),
                   Segment(Cell(Width, 0), Cell(Width, Height)),
                   Segment(Cell(0, Height), Cell(Width, Height)),
                   Segment(Cell(11, 17), Cell(Width - 10, 17)),
                   Segment(Cell(11, 40), Cell(Width - 10, 40)) ];
    assert ObstacleLines() == outer + FlatRange(0, 16, StubLines);
    StubWallsMissMove(16);
    forall l | l in outer
      ensures !Intersect(l, Segment(Cell(11, 17), Cell(12, 16)))
    {
    }
  }

  /** A cell off the layout's lines is free. */
  lemma OffLayoutIsFree(cp: Park, c: Cell)
    requires cp == NewCarPark() && !OnLayout(c)
    ensures c !in cp.obstacles
  {
    ObstaclesInBounds();
  }

  /** Both partition rows are solid: every cell with x in 11 .. 71 on row 17
      and on row 40 is blocked. */
  lemma PartitionCellBlocked(cp: Park, x: int)
    requires cp == NewCarPark() && 11 <= x < Width - 10
    ensures Cell(x, 17) in cp.obstacles && Cell(x, 40) in cp.obstacles
  {
    FlatRangeHas(11, Width - 10, PartitionCells, x, Cell(x, 17));
    FlatRangeHas(11, Width - 10, PartitionCells, x, Cell(x, 40));
  }

  /** (12, 16) lies on none of the layout's lines. */
  lemma FreeCellOffLayout()
    ensures !OnLayout(Cell(12, 16))
  {
    forall k | 0 <= k < 16
      ensures 12 != k * 4 + 11
    {
    }
  }

  /** No wall of the constructed car park crosses the move from (11, 17) to
      (12, 16). */
  lemma NoWallCrossesMove(cp: Park)
    requires cp == NewCarPark()
    ensures forall i :: 0 <= i < |cp.obstacleLines| ==>
      !Intersect(cp.obstacleLines[i], Segment(Cell(11, 17), Cell(12, 16)))
  {
    WallsMissMove();
    forall i | 0 <= i < |cp.obstacleLines|
      ensures !Intersect(cp.obstacleLines[i], Segment(Cell(11, 17), Cell(12, 16)))
    {
      assert cp.obstacleLines[i] in ObstacleLines();
    }
  }

  /** The blocked-cell test of the move check reads only the target cell; the
      source cell enters only as an endpoint of the wall-crossing segment. In
      the constructed car park, (11, 17) is a blocked cell on the lower
      partition, yet the move from it down and to the right, to (12, 16), is
      allowed. */
  lemma BlockedCellCanBeLeft(cp: Park)
    requires cp == NewCarPark()
    ensures Cell(11, 17) in cp.obstacles
    ensures IsNotCrossedObstacle(cp, Cell(11, 17), Cell(12, 16))
  {
    PartitionCellBlocked(cp, 11);
    FreeCellOffLayout();
    OffLayoutIsFree(cp, Cell(12, 16));
    NoWallCrossesMove(cp);
    TraversableIff(cp, Cell(11, 17), Cell(12, 16));
  }
}
