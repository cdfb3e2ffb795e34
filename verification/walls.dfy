/** WallManager (walls.ts): the maze's walls as segments, and the segment-crossing test used for
    collision checks. */
module Walls {
  import opened Geometry
  import opened Grid
  import opened MazeMap

  datatype WallManager = WallManager(walls: seq<Segment>)

  /** The four border walls: top, right, bottom, left. */
  function BorderWalls(m: Maze): seq<Segment>
  {
    var wd, ht := m.width * m.scale, m.height * m.scale;
    [Segment(0, 0, wd, 0), Segment(wd, 0, wd, ht), Segment(wd, ht, 0, ht), Segment(0, ht, 0, 0)]
  }

  /** The internal walls one cell adds: its north side, then its west side, where walled. */
  function NorthWestWalls(m: Maze, c: Cell): seq<Segment>
  {
    (if Walled(m, c, North) then [SideSegment(m.scale, c, North)] else [])
    + (if Walled(m, c, West) then [SideSegment(m.scale, c, West)] else [])
  }

  function InternalWalls(m: Maze): seq<Segment>
  {
    RowMajor(m.height, m.width, c => NorthWestWalls(m, c))
  }

  /** new WallManager(maze): the border walls, then the internal walls row by row. */
  function NewWallManager(m: Maze): (r: WallManager)
    ensures |r.walls| >= 4 && r.walls[..4] == BorderWalls(m)
    ensures r.walls[4..] == InternalWalls(m)
  {
    WallManager(BorderWalls(m) + InternalWalls(m))
  }

  /** getWalls: a copy of the list (a value here). */
  function GetWalls(wm: WallManager): seq<Segment>
  {
    wm.walls
  }

  /** A cell adds exactly its walled north and west sides; on the top row the north side and in the
      left column the west side are always among them, since nothing lies across them. */
  lemma NorthWestMembers(m: Maze, c: Cell, seg: Segment)
    ensures seg in NorthWestWalls(m, c) <==>
      exists d :: (d == North || d == West) && Walled(m, c, d) && seg == SideSegment(m.scale, c, d)
    ensures Valid(m) && InGrid(m.height, m.width, c) && c.row == 0 ==>
      SideSegment(m.scale, c, North) in NorthWestWalls(m, c)
    ensures Valid(m) && InGrid(m.height, m.width, c) && c.col == 0 ==>
      SideSegment(m.scale, c, West) in NorthWestWalls(m, c)
  {
    if Valid(m) && InGrid(m.height, m.width, c) {
      if c.row == 0 {
        OuterSidesWalled(m, c, North);
      }
      if c.col == 0 {
        OuterSidesWalled(m, c, West);
      }
    }
    if seg in NorthWestWalls(m, c) {
      if Walled(m, c, North) && seg == SideSegment(m.scale, c, North) {
      } else {
        assert Walled(m, c, West) && seg == SideSegment(m.scale, c, West);
      }
    }
  }

  /** A south side is the north side of the cell below, an east side the west side of the cell to the right. */
  lemma SharedSide(scale: nat, c: Cell, d: Side)
    requires d == South || d == East
    ensures SideSegment(scale, c, d) == SideSegment(scale, Across(c, d), Opposite(d))
  {
  }

  /** Every side between two cells of the grid, and every north or west side, carries a wall
      in the list exactly when the maze has no passage there. */
  lemma InternalWallExactlyWhereWalled(m: Maze, c: Cell, d: Side)
    requires Valid(m) && m.scale > 0 && InGrid(m.height, m.width, c)
    requires d == North || d == West || InGrid(m.height, m.width, Across(c, d))
    ensures SideSegment(m.scale, c, d) in GetWalls(NewWallManager(m))[4..] <==> Walled(m, c, d)
  {
    var f := (x: Cell) => NorthWestWalls(m, x);
    var seg := SideSegment(m.scale, c, d);
    RowMajorMembers(m.height, m.width, f, seg);
    WalledBothWays(m, c, d);
    if Walled(m, c, d) {
      if d == North || d == West {
        NorthWestMembers(m, c, seg);
        assert seg in f(c);
      } else {
        SharedSide(m.scale, c, d);
        NorthWestMembers(m, Across(c, d), seg);
        assert seg in f(Across(c, d));
      }
    }
    if seg in InternalWalls(m) {
      var c2 :| InGrid(m.height, m.width, c2) && seg in f(c2);
      NorthWestMembers(m, c2, seg);
      var d2 :| (d2 == North || d2 == West) && Walled(m, c2, d2) && seg == SideSegment(m.scale, c2, d2);
      SameSegmentSameSide(m.scale, c, d, c2, d2);
    }
  }

  /** The south sides of the bottom row and the east sides of the last column, which the internal
      walls skip, lie on the bottom and right border walls. */
  lemma OuterSidesOnBorder(m: Maze, c: Cell, d: Side)
    requires InGrid(m.height, m.width, c) && (d == South || d == East)
    requires !InGrid(m.height, m.width, Across(c, d))
    ensures var seg, wd, ht := SideSegment(m.scale, c, d), m.width * m.scale, m.height * m.scale;
      d == South ==> seg.y1 == ht && seg.y2 == ht && 0 <= seg.x1 && seg.x2 <= wd
    ensures var seg, wd, ht := SideSegment(m.scale, c, d), m.width * m.scale, m.height * m.scale;
      d == East ==> seg.x1 == wd && seg.x2 == wd && 0 <= seg.y1 && seg.y2 <= ht
  {
    assert c.col * m.scale >= 0 && c.row * m.scale >= 0;
    if d == South {
      MulMonotone(c.col, m.width, m.scale);
    } else {
      MulMonotone(c.row, m.height, m.scale);
    }
  }

  // ---------------------------------------------------------------------------
  // Segment crossing

  /** The denominator of lineIntersects; zero when the segments are parallel. */
  function Den(x1: real, y1: real, x2: real, y2: real, x3: real, y3: real, x4: real, y4: real): real
  {
    (x1 - x2) * (y3 - y4) - (y1 - y2) * (x3 - x4)
  }

  /** lineIntersects: false for parallel segments, else the crossing parameters t (along the first
      segment) and u (along the second) must both lie in [0, 1]. */
  function LineIntersects(x1: real, y1: real, x2: real, y2: real, x3: real, y3: real, x4: real, y4: real): bool
  {
    var den := Den(x1, y1, x2, y2, x3, y3, x4, y4);
    if den == 0.0 then false
    else
      var t := ((x1 - x3) * (y3 - y4) - (y1 - y3) * (x3 - x4)) / den;
      var u := -((x1 - x2) * (y1 - y3) - (y1 - y2) * (x1 - x3)) / den;
      t >= 0.0 && t <= 1.0 && u >= 0.0 && u <= 1.0
  }

  /** The point at parameter t on the first segment is the point at parameter u on the second. */
  ghost predicate MeetAt(x1: real, y1: real, x2: real, y2: real, x3: real, y3: real, x4: real, y4: real,
                         t: real, u: real)
  {
    && x1 + t * (x2 - x1) == x3 + u * (x4 - x3)
    && y1 + t * (y2 - y1) == y3 + u * (y4 - y3)
  }

  /** Solving t * a - u * c == p, t * b - u * e == q by Cramer's rule. */
  lemma Cramer(a: real, b: real, c: real, e: real, p: real, q: real, t: real, u: real)
    requires a * e - b * c != 0.0
    ensures (t * a - u * c == p && t * b - u * e == q) <==>
            (t * (a * e - b * c) == p * e - q * c && u * (a * e - b * c) == b * p - a * q)
  {
    var den := a * e - b * c;
    if t * a - u * c == p && t * b - u * e == q {
      assert t * den == e * (t * a) - c * (t * b);
      assert e * (t * a) == e * p + e * (u * c);
      assert c * (t * b) == c * q + c * (u * e);
      assert u * den == b * (t * a - u * c) - a * (t * b - u * e);
    }
    if t * den == p * e - q * c && u * den == b * p - a * q {
      assert (t * a - u * c) * den == a * (t * den) - c * (u * den);
      assert (t * a - u * c) * den == p * den;
      assert (t * b - u * e) * den == b * (t * den) - e * (u * den);
      assert (t * b - u * e) * den == q * den;
    }
  }

  /** lineIntersects is true exactly when the segments are not parallel and share a point. */
  lemma LineIntersectsMeans(x1: real, y1: real, x2: real, y2: real, x3: real, y3: real, x4: real, y4: real)
    ensures LineIntersects(x1, y1, x2, y2, x3, y3, x4, y4) <==>
      && Den(x1, y1, x2, y2, x3, y3, x4, y4) != 0.0
      && exists t, u :: 0.0 <= t <= 1.0 && 0.0 <= u <= 1.0 && MeetAt(x1, y1, x2, y2, x3, y3, x4, y4, t, u)
  {
    var den := Den(x1, y1, x2, y2, x3, y3, x4, y4);
    if den != 0.0 {
      var a, b, c, e, p, q := x2 - x1, y2 - y1, x4 - x3, y4 - y3, x3 - x1, y3 - y1;
      assert den == a * e - b * c;
      var t := ((x1 - x3) * (y3 - y4) - (y1 - y3) * (x3 - x4)) / den;
      var u := -((x1 - x2) * (y1 - y3) - (y1 - y2) * (x1 - x3)) / den;
      assert t * den == p * e - q * c;
      assert u * den == b * p - a * q;
      Cramer(a, b, c, e, p, q, t, u);
      assert MeetAt(x1, y1, x2, y2, x3, y3, x4, y4, t, u);
      forall t', u' | MeetAt(x1, y1, x2, y2, x3, y3, x4, y4, t', u')
        ensures t' == t && u' == u
      {
        Cramer(a, b, c, e, p, q, t', u');
        CancelNonZero(t', t, den);
        CancelNonZero(u', u, den);
      }
    }
  }

  lemma CancelNonZero(x: real, y: real, d: real)
    requires d != 0.0 && x * d == y * d
    ensures x == y
  {
    assert (x - y) * d == 0.0;
  }

  /** checkLineCollision: whether the segment from `start` to `end` crosses any wall,
      scanning the list in order and stopping at the first hit. */
  function CheckLineCollision(walls: seq<Segment>, start: Position, end: Position): (r: bool)
    ensures r <==> exists k :: 0 <= k < |walls| && Crosses(start, end, walls[k])
  {
    if walls == [] then false
    else if Crosses(start, end, walls[0]) then true
    else
      var r := CheckLineCollision(walls[1..], start, end);
      assert forall k :: 1 <= k < |walls| ==> walls[k] == walls[1..][k - 1];
      r
  }

  predicate Crosses(start: Position, end: Position, wall: Segment)
  {
    LineIntersects(start.x, start.y, end.x, end.y,
                   wall.x1 as real, wall.y1 as real, wall.x2 as real, wall.y2 as real)
  }

  /** The move from start to end and the wall are not parallel and share a point. */
  ghost predicate SegmentsMeet(start: Position, end: Position, wall: Segment)
  {
    var x3, y3, x4, y4 := wall.x1 as real, wall.y1 as real, wall.x2 as real, wall.y2 as real;
    && Den(start.x, start.y, end.x, end.y, x3, y3, x4, y4) != 0.0
    && exists t, u :: 0.0 <= t <= 1.0 && 0.0 <= u <= 1.0 && MeetAt(start.x, start.y, end.x, end.y, x3, y3, x4, y4, t, u)
  }

  /** A manager's collision check is true exactly when the move meets some wall at a point
      of both segments. */
  lemma CollisionMeans(wm: WallManager, start: Position, end: Position)
    ensures CheckLineCollision(wm.walls, start, end) <==>
      exists k :: 0 <= k < |wm.walls| && SegmentsMeet(start, end, wm.walls[k])
  {
    forall k | 0 <= k < |wm.walls|
      ensures Crosses(start, end, wm.walls[k]) <==> SegmentsMeet(start, end, wm.walls[k])
    {
      var s := wm.walls[k];
      LineIntersectsMeans(start.x, start.y, end.x, end.y, s.x1 as real, s.y1 as real, s.x2 as real, s.y2 as real);
    }
  }
}
