/** The maze of map.js: an h x w grid whose `connected` relation records where there is no wall,
    generated with randomized Prim's algorithm and then opened up by removing random walls. */
module MazeMap {
  import opened Wrappers
  import opened Geometry
  import opened Grid
  import opened Graph

  /** A maze: `connected[c]` is the set of cells reachable from c without crossing a wall.
      `created` is the clock reading at which the node positions were stamped. */
  datatype Maze = Maze(height: nat, width: nat, scale: nat, connected: Conn, created: int)

  /** What every maze keeps: passages join grid-adjacent cells and go both ways. */
  ghost predicate Valid(m: Maze)
  {
    WithinGrid(m.height, m.width, m.connected) && Symmetric(m.connected)
  }

  /** The relation populateNodes leaves behind: every wall standing. */
  function NoPassages(h: nat, w: nat): (g: Conn)
    ensures WithinGrid(h, w, g) && Symmetric(g)
    ensures Arcs(g) == {}
  {
    var none: set<Cell> := {};
    map c | c in Cells(h, w) :: none
  }

  /** border.splice(index, 1). */
  function RemoveAt(s: seq<Cell>, i: nat): (r: seq<Cell>)
    requires i < |s| && Distinct(s)
    ensures Distinct(r) && |r| == |s| - 1
    ensures forall c :: c in r <==> c in s && c != s[i]
  {
    var r := s[..i] + s[i + 1..];
    assert forall k :: 0 <= k < |r| ==> r[k] == if k < i then s[k] else s[k + 1];
    r
  }

  /** The loop that pushes each neighbour that is neither inside nor already on the border. */
  function AddToBorder(border: seq<Cell>, inside: set<Cell>, ns: seq<Cell>): (r: seq<Cell>)
    requires Distinct(border)
    ensures Distinct(r)
    ensures forall c :: c in r <==> c in border || (c in ns && c !in inside)
    decreases |ns|
  {
    if ns == [] then border
    else
      var b := if ns[0] !in inside && ns[0] !in border then border + [ns[0]] else border;
      var r := AddToBorder(b, inside, ns[1..]);
      assert forall c :: c in ns <==> c == ns[0] || c in ns[1..];
      r
  }

  /** Every passage joins two cells of `s`. */
  ghost predicate ArcsInside(g: Conn, s: set<Cell>)
  {
    forall a :: a in g && g[a] != {} ==> a in s && g[a] <= s
  }

  ghost predicate AllReachable(g: Conn, start: Cell, s: set<Cell>)
  {
    forall c :: c in s ==> Reachable(g, start, c)
  }

  /** The border lists, without repeats, grid cells outside `inside` that touch an inside cell. */
  ghost predicate BorderOk(h: nat, w: nat, inside: set<Cell>, border: seq<Cell>)
  {
    && Distinct(border)
    && (forall c :: c in border ==> InGrid(h, w, c) && c !in inside)
    && (forall c :: c in border ==> exists d :: d in Neighbours(h, w, c) && d in inside)
  }

  /** Every grid neighbour of an inside cell is inside or on the border. */
  ghost predicate Frontier(h: nat, w: nat, inside: set<Cell>, border: seq<Cell>)
  {
    forall c, d :: c in inside && InGrid(h, w, d) && Adjacent(c, d) ==> d in inside || d in border
  }

  /** The invariant of Prim's loop: passages form a tree on `inside` rooted at `start`,
      and `border` is the frontier of `inside`. */
  ghost predicate PrimState(h: nat, w: nat, g: Conn, start: Cell, inside: set<Cell>, border: seq<Cell>)
  {
    && WithinGrid(h, w, g) && Symmetric(g)
    && start in inside && inside <= Cells(h, w)
    && ArcsInside(g, inside)
    && |Arcs(g)| == 2 * (|inside| - 1)
    && AllReachable(g, start, inside)
    && BorderOk(h, w, inside, border)
    && Frontier(h, w, inside, border)
  }

  /** generateMaze: randomized Prim's algorithm. Each random choice is a nondeterministic pick;
      the inner retry loop ends, with probability one, on a neighbour that is already inside.
      The result is a spanning tree of the grid: h*w - 1 passages, every cell reachable. */
  method GenerateMaze(h: nat, w: nat) returns (g: Conn)
    requires h >= 1 && w >= 1
    ensures WithinGrid(h, w, g) && Symmetric(g)
    ensures |Arcs(g)| == 2 * (h * w - 1)
    ensures Connected(g)
  {
    assert Cell(0, 0) in Cells(h, w);
    var start :| start in Cells(h, w);
    g := NoPassages(h, w);
    var inside: set<Cell> := {start};
    var border := Neighbours(h, w, start);
    PrimStart(h, w, start);
    while |border| > 0
      invariant PrimState(h, w, g, start, inside, border)
      decreases Cells(h, w) - inside
    {
      var index :| 0 <= index < |border|;
      var node := border[index];
      BorderTouchesInside(h, w, inside, border, index);
      var neighbour :| neighbour in Neighbours(h, w, node) && neighbour in inside;
      PrimStep(h, w, g, start, inside, border, index, neighbour);
      ghost var inside0 := inside;
      g, inside, border := AddEdge(g, node, neighbour), inside + {node},
        AddToBorder(RemoveAt(border, index), inside + {node}, Neighbours(h, w, node));
      assert node in Cells(h, w) - inside0 && node !in Cells(h, w) - inside;
    }
    PrimEnd(h, w, g, start, inside);
  }

  /** Every border cell has a neighbour inside, which Prim's loop connects it to. */
  lemma BorderTouchesInside(h: nat, w: nat, inside: set<Cell>, border: seq<Cell>, index: nat)
    requires BorderOk(h, w, inside, border) && index < |border|
    ensures InGrid(h, w, border[index]) && border[index] !in inside
    ensures exists d :: d in Neighbours(h, w, border[index]) && d in inside
  {
    assert border[index] in border;
  }

  lemma PrimStart(h: nat, w: nat, start: Cell)
    requires InGrid(h, w, start)
    ensures PrimState(h, w, NoPassages(h, w), start, {start}, Neighbours(h, w, start))
  {
    var g := NoPassages(h, w);
    assert IsPath(g, [start]);
    forall c | c in Neighbours(h, w, start)
      ensures exists d :: d in Neighbours(h, w, c) && d in {start}
    {
      NeighboursSymmetric(h, w, start, c);
    }
  }

  lemma PrimEnd(h: nat, w: nat, g: Conn, start: Cell, inside: set<Cell>)
    requires PrimState(h, w, g, start, inside, [])
    ensures |Arcs(g)| == 2 * (h * w - 1)
    ensures Connected(g)
  {
    assert ClosedUnderAdjacency(h, w, inside);
    ClosedCoversGrid(h, w, inside, start);
    CellsCard(h, w);
    assert inside == Cells(h, w);
    RootReachesAll(g, start);
  }

  /** One round of Prim's loop keeps the invariant. */
  lemma PrimStep(h: nat, w: nat, g: Conn, start: Cell, inside: set<Cell>, border: seq<Cell>,
                 index: nat, neighbour: Cell)
    requires PrimState(h, w, g, start, inside, border)
    requires index < |border|
    requires neighbour in Neighbours(h, w, border[index]) && neighbour in inside
    ensures var node := border[index];
      PrimState(h, w, AddEdge(g, node, neighbour), start, inside + {node},
                AddToBorder(RemoveAt(border, index), inside + {node}, Neighbours(h, w, node)))
  {
    var node := border[index];
    assert node in border;
    PrimStepTree(h, w, g, start, inside, node, neighbour);
    PrimStepBorder(h, w, inside, border, index);
  }

  lemma PrimStepTree(h: nat, w: nat, g: Conn, start: Cell, inside: set<Cell>, node: Cell, neighbour: Cell)
    requires WithinGrid(h, w, g) && Symmetric(g)
    requires ArcsInside(g, inside) && |Arcs(g)| == 2 * (|inside| - 1)
    requires AllReachable(g, start, inside)
    requires InGrid(h, w, node) && node !in inside
    requires neighbour in Neighbours(h, w, node) && neighbour in inside
    ensures WithinGrid(h, w, AddEdge(g, node, neighbour)) && Symmetric(AddEdge(g, node, neighbour))
    ensures ArcsInside(AddEdge(g, node, neighbour), inside + {node})
    ensures |Arcs(AddEdge(g, node, neighbour))| == 2 * (|inside + {node}| - 1)
    ensures AllReachable(AddEdge(g, node, neighbour), start, inside + {node})
  {
    PrimStepArcs(h, w, g, inside, node, neighbour);
    assert node in g && neighbour in g;
    PrimReach(g, start, inside, node, neighbour);
    ArcsStayInside(g, inside, node, neighbour);
  }

  /** Joining an outside node to the tree keeps the maze well formed and adds one edge per new cell. */
  lemma PrimStepArcs(h: nat, w: nat, g: Conn, inside: set<Cell>, node: Cell, neighbour: Cell)
    requires WithinGrid(h, w, g) && Symmetric(g)
    requires ArcsInside(g, inside) && |Arcs(g)| == 2 * (|inside| - 1)
    requires InGrid(h, w, node) && node !in inside
    requires neighbour in Neighbours(h, w, node) && neighbour in inside
    ensures WithinGrid(h, w, AddEdge(g, node, neighbour)) && Symmetric(AddEdge(g, node, neighbour))
    ensures |Arcs(AddEdge(g, node, neighbour))| == 2 * (|inside + {node}| - 1)
  {
    assert InGrid(h, w, neighbour) && Adjacent(node, neighbour);
    assert node in g && neighbour in g;
    AddEdgeKeepsShape(h, w, g, node, neighbour);
    NothingOutside(g, inside, node);
    ArcsGrowByTwo(g, node, neighbour);
    assert |inside + {node}| == |inside| + 1;
  }

  lemma NothingOutside(g: Conn, inside: set<Cell>, node: Cell)
    requires ArcsInside(g, inside) && node in g && node !in inside
    ensures g[node] == {}
  {
  }

  lemma ArcsStayInside(g: Conn, inside: set<Cell>, node: Cell, neighbour: Cell)
    requires node in g && neighbour in g && neighbour in inside
    requires ArcsInside(g, inside)
    ensures ArcsInside(AddEdge(g, node, neighbour), inside + {node})
  {
    var g1 := AddEdge(g, node, neighbour);
    forall a | a in g1 && g1[a] != {}
      ensures a in inside + {node} && g1[a] <= inside + {node}
    {
      if a != node && a != neighbour {
        assert g1[a] == g[a];
      }
    }
  }

  lemma PrimStepBorder(h: nat, w: nat, inside: set<Cell>, border: seq<Cell>, index: nat)
    requires index < |border|
    requires BorderOk(h, w, inside, border) && Frontier(h, w, inside, border)
    ensures var node := border[index];
      var inside1 := inside + {node};
      var border1 := AddToBorder(RemoveAt(border, index), inside1, Neighbours(h, w, node));
      BorderOk(h, w, inside1, border1) && Frontier(h, w, inside1, border1)
  {
    var node := border[index];
    assert node in border;
    var inside1 := inside + {node};
    var rest := RemoveAt(border, index);
    var border1 := AddToBorder(rest, inside1, Neighbours(h, w, node));
    forall c | c in border1
      ensures exists d :: d in Neighbours(h, w, c) && d in inside1
    {
      if c in border {
        var d :| d in Neighbours(h, w, c) && d in inside;
        assert d in inside1;
      } else {
        NeighboursSymmetric(h, w, node, c);
        assert node in Neighbours(h, w, c);
      }
    }
    forall c, d | c in inside1 && InGrid(h, w, d) && Adjacent(c, d)
      ensures d in inside1 || d in border1
    {
      if c == node {
        assert d in Neighbours(h, w, node);
      } else if d != node && d !in inside {
        assert d in border;
        assert d in rest;
      }
    }
  }

  lemma PrimReach(g: Conn, start: Cell, inside: set<Cell>, node: Cell, neighbour: Cell)
    requires node in g && neighbour in g && neighbour in inside
    requires AllReachable(g, start, inside)
    ensures AllReachable(AddEdge(g, node, neighbour), start, inside + {node})
  {
    var g1 := AddEdge(g, node, neighbour);
    forall c | c in inside + {node}
      ensures Reachable(g1, start, c)
    {
      if c == node {
        var p :| IsPath(g, p) && p[0] == start && p[|p| - 1] == neighbour;
        PathInSuperGraph(g, g1, p);
        PathExtend(g1, p, node);
        assert (p + [node])[0] == start;
      } else {
        ReachableInSuperGraph(g, g1, start, c);
      }
    }
  }

  /** A new passage between two cells that were not connected adds exactly two arcs. */
  lemma ArcsGrowByTwo(g: Conn, a: Cell, b: Cell)
    requires a in g && b in g && a != b && Symmetric(g) && b !in g[a]
    ensures |Arcs(AddEdge(g, a, b))| == |Arcs(g)| + 2
  {
    var e := {(a, b), (b, a)};
    AddEdgeArcs(g, a, b);
    assert a !in g[b];
    DisjointUnionCard(Arcs(g), e);
    assert |e| == 2;
  }

  /** The Maze constructor: populateNodes, then generateMaze. */
  method NewMaze(length: nat, width: nat, scale: nat, now: int) returns (m: Maze)
    requires length >= 1 && width >= 1
    ensures m.height == length && m.width == width && m.scale == scale && m.created == now
    ensures Valid(m)
    ensures |Arcs(m.connected)| == 2 * (length * width - 1)
    ensures Connected(m.connected)
  {
    var g := GenerateMaze(length, width);
    m := Maze(length, width, scale, g, now);
  }

  // ---------------------------------------------------------------------------
  // removeWalls

  /** How many extra passages removeWalls opens: floor((maxEdges - edges) * openness),
      where edges = h * w - 1 is the size of a spanning tree. */
  function ToAdd(h: nat, w: nat, openness: real): int
  {
    ((MaxEdges(h, w) - (h * w - 1)) as real * openness).Floor
  }

  /** removeWalls: `toAdd` times, pick a random node that still has a walled neighbour, then a random
      walled neighbour of it, and open the wall. The retry loops are nondeterministic picks.
      The loop only finishes if the grid has room for `toAdd` more passages, hence the precondition. */
  method RemoveWalls(m: Maze, openness: real) returns (r: Maze)
    requires Valid(m) && m.height >= 1 && m.width >= 1
    requires |Arcs(m.connected)| + 2 * ToAdd(m.height, m.width, openness) <= 2 * MaxEdges(m.height, m.width)
    ensures r.height == m.height && r.width == m.width && r.scale == m.scale && r.created == m.created
    ensures Valid(r) && SubGraph(m.connected, r.connected)
    ensures var toAdd := ToAdd(m.height, m.width, openness);
      |Arcs(r.connected)| == |Arcs(m.connected)| + 2 * (if toAdd < 0 then 0 else toAdd)
    ensures Connected(m.connected) ==> Connected(r.connected)
    ensures ToAdd(m.height, m.width, openness) <= 0 ==> r == m
  {
    var h, w := m.height, m.width;
    var toAdd := ToAdd(h, w, openness);
    var g := m.connected;
    var i := 0;
    while i < toAdd
      invariant WithinGrid(h, w, g) && Symmetric(g) && SubGraph(m.connected, g)
      invariant i == 0 || 0 < i <= toAdd
      invariant i == 0 ==> g == m.connected
      invariant |Arcs(g)| == |Arcs(m.connected)| + 2 * i
    {
      RoomForPassage(h, w, g);
      var node :| node in Cells(h, w) && |g[node]| < |Neighbours(h, w, node)|;
      WalledNeighbour(h, w, g, node);
      var neighbour :| neighbour in Neighbours(h, w, node) && neighbour !in g[node];
      OpenWall(h, w, m.connected, g, node, neighbour);
      g := AddEdge(g, node, neighbour);
      i := i + 1;
    }
    r := m.(connected := g);
    if Connected(m.connected) {
      ConnectedInSuperGraph(m.connected, g);
    }
  }

  /** Opening one wall keeps the maze well formed, keeps every old passage and adds two arcs. */
  lemma OpenWall(h: nat, w: nat, g0: Conn, g: Conn, node: Cell, neighbour: Cell)
    requires WithinGrid(h, w, g) && Symmetric(g) && SubGraph(g0, g)
    requires InGrid(h, w, node) && neighbour in Neighbours(h, w, node) && neighbour !in g[node]
    ensures WithinGrid(h, w, AddEdge(g, node, neighbour)) && Symmetric(AddEdge(g, node, neighbour))
    ensures SubGraph(g0, AddEdge(g, node, neighbour))
    ensures |Arcs(AddEdge(g, node, neighbour))| == |Arcs(g)| + 2
  {
    AddEdgeKeepsShape(h, w, g, node, neighbour);
    ArcsGrowByTwo(g, node, neighbour);
  }

  /** While the maze has fewer passages than the full grid, some node still has a walled neighbour. */
  lemma RoomForPassage(h: nat, w: nat, g: Conn)
    requires h >= 1 && w >= 1 && WithinGrid(h, w, g)
    requires |Arcs(g)| < 2 * MaxEdges(h, w)
    ensures exists a :: a in Cells(h, w) && |g[a]| < |Neighbours(h, w, a)|
  {
    var a, b := MissingArc(h, w, g);
    FewerPassages(h, w, g, a, b);
    assert a in Cells(h, w);
  }

  /** Fewer arcs than the full grid means some grid arc (a, b) is still walled off. */
  lemma MissingArc(h: nat, w: nat, g: Conn) returns (a: Cell, b: Cell)
    requires h >= 1 && w >= 1 && WithinGrid(h, w, g)
    requires |Arcs(g)| < 2 * MaxEdges(h, w)
    ensures InGrid(h, w, a) && InGrid(h, w, b) && Adjacent(a, b) && b !in g[a]
  {
    GridArcsCard(h, w);
    var all := GridArcs(h, w);
    if all <= Arcs(g) {
      SubsetCard(all, Arcs(g));
      assert false;
    }
    var e :| e in all && e !in Arcs(g);
    a, b := e.0, e.1;
  }

  /** A node with a walled neighbour has fewer passages than neighbours. */
  lemma FewerPassages(h: nat, w: nat, g: Conn, a: Cell, b: Cell)
    requires WithinGrid(h, w, g) && InGrid(h, w, a) && InGrid(h, w, b) && Adjacent(a, b) && b !in g[a]
    ensures |g[a]| < |Neighbours(h, w, a)|
  {
    var ns := set x | x in Neighbours(h, w, a);
    assert g[a] <= ns - {b};
    SubsetCard(g[a], ns - {b});
    DistinctSeqCard(Neighbours(h, w, a));
  }

  /** A node with fewer passages than neighbours has a walled neighbour. */
  lemma WalledNeighbour(h: nat, w: nat, g: Conn, a: Cell)
    requires WithinGrid(h, w, g) && InGrid(h, w, a)
    requires |g[a]| < |Neighbours(h, w, a)|
    ensures exists b :: b in Neighbours(h, w, a) && b !in g[a]
  {
    var ns := set x | x in Neighbours(h, w, a);
    if ns <= g[a] {
      DistinctSeqCard(Neighbours(h, w, a));
      SubsetCard(ns, g[a]);
      assert false;
    }
    var b :| b in ns && b !in g[a];
  }

  /** Opening walls never goes past the full grid when it starts from a spanning tree and
      0 <= openness <= 1. */
  lemma SpanningTreeLeavesRoom(h: nat, w: nat, openness: real)
    requires h >= 1 && w >= 1 && 0.0 <= openness <= 1.0
    ensures 2 * (h * w - 1) + 2 * ToAdd(h, w, openness) <= 2 * MaxEdges(h, w)
  {
    var x := MaxEdges(h, w) - (h * w - 1);
    assert x == (h - 1) * (w - 1);
    assert (h - 1) * (w - 1) >= 0;
    var xr := x as real;
    MulLe(openness, 1.0, xr);
  }

  // ---------------------------------------------------------------------------
  // Looking up nodes

  /** getNode(x, y): the node in column x, row y, or the "Invalid node coordinates" error. */
  function GetNode(m: Maze, x: int, y: int): (r: Result<Cell>)
    ensures r.Success? <==> InGrid(m.height, m.width, Cell(y, x))
    ensures r.Success? ==> r.value.col == x && r.value.row == y
  {
    if x < 0 || x >= m.width || y < 0 || y >= m.height then Failure("Invalid node coordinates")
    else Success(Cell(y, x))
  }

  /** Every node id decodes, through getNode(id % width, id / width), to the cell that carries it. */
  lemma GetNodeById(m: Maze, c: Cell)
    requires InGrid(m.height, m.width, c)
    ensures var id := NodeId(m.width, c);
      GetNode(m, id % m.width, id / m.width) == Success(c)
  {
    NodeIdBijection(m.height, m.width, c, c);
  }

  /** getNodeFromPos: the node whose square holds the position, or null outside the map. */
  function GetNodeFromPos(m: Maze, p: Position): (r: Option<Cell>)
    ensures r.None? <==>
      !(0.0 <= p.x < (m.width * m.scale) as real && 0.0 <= p.y < (m.height * m.scale) as real)
    ensures r.Some? ==> InGrid(m.height, m.width, r.value) && InSquare(m.scale, r.value, p.x, p.y)
  {
    if p.x < 0.0 || p.x >= (m.width * m.scale) as real then None
    else if p.y < 0.0 || p.y >= (m.height * m.scale) as real then None
    else
      assert m.scale != 0;
      FloorDivBand(p.x, m.scale, m.width);
      FloorDivBand(p.y, m.scale, m.height);
      Some(Cell((p.y / m.scale as real).Floor, (p.x / m.scale as real).Floor))
  }

  /** The centre of every cell maps back to that cell, and getNode agrees with getNodeFromPos. */
  lemma NodeFromCentre(m: Maze, c: Cell, now: int)
    requires m.scale > 0 && InGrid(m.height, m.width, c)
    ensures GetNodeFromPos(m, Centre(m.scale, c, now)) == Some(c)
    ensures GetNode(m, c.col, c.row) == Success(c)
  {
    var p := Centre(m.scale, c, now);
    CentreInSquare(m.scale, c, now);
    ScaleOrder(c.col + 1, m.width, m.scale);
    ScaleOrder(c.row + 1, m.height, m.scale);
    ScaleOrder(0, c.col, m.scale);
    ScaleOrder(0, c.row, m.scale);
    var r := GetNodeFromPos(m, p);
    SquareUnique(m.scale, r.value, c, p.x, p.y);
  }

  // ---------------------------------------------------------------------------
  // Walls: the sides of a cell that have no passage

  /** The four sides of a cell, in the order generateSVG visits them. */
  datatype Side = North | West | South | East

  /** A wall segment from (x1, y1) to (x2, y2) in world units. */
  datatype Segment = Segment(x1: int, y1: int, x2: int, y2: int)

  /** The cell on the other side of side `d` of c. */
  function Across(c: Cell, d: Side): Cell
  {
    match d
    case North => Cell(c.row - 1, c.col)
    case West => Cell(c.row, c.col - 1)
    case South => Cell(c.row + 1, c.col)
    case East => Cell(c.row, c.col + 1)
  }

  function Opposite(d: Side): Side
  {
    match d
    case North => South
    case West => East
    case South => North
    case East => West
  }

  /** The segment a side is drawn as: north is j*s,i*s to (j+1)*s,i*s and so on. */
  function SideSegment(scale: nat, c: Cell, d: Side): Segment
  {
    var i, j := c.row, c.col;
    match d
    case North => Segment(j * scale, i * scale, (j + 1) * scale, i * scale)
    case West => Segment(j * scale, i * scale, j * scale, (i + 1) * scale)
    case South => Segment(j * scale, (i + 1) * scale, (j + 1) * scale, (i + 1) * scale)
    case East => Segment((j + 1) * scale, i * scale, (j + 1) * scale, (i + 1) * scale)
  }

  /** node.connected, total: no passages outside the table. */
  function Linked(m: Maze, c: Cell): set<Cell>
  {
    if c in m.connected then m.connected[c] else {}
  }

  /** `!node.connected.includes(<node across side d>)`: the across node is undefined off the grid,
      which is never included. */
  predicate Walled(m: Maze, c: Cell, d: Side)
  {
    Across(c, d) !in Linked(m, c)
  }

  /** Sides of the grid's outer edge are always walled. */
  lemma OuterSidesWalled(m: Maze, c: Cell, d: Side)
    requires Valid(m) && InGrid(m.height, m.width, c) && !InGrid(m.height, m.width, Across(c, d))
    ensures Walled(m, c, d)
  {
  }

  /** A wall seen from one side is a wall seen from the other. */
  lemma WalledBothWays(m: Maze, c: Cell, d: Side)
    requires Valid(m) && InGrid(m.height, m.width, c)
    ensures Across(Across(c, d), Opposite(d)) == c
    ensures Walled(m, c, d) <==> Walled(m, Across(c, d), Opposite(d))
  {
  }

  /** Two sides with the same segment are the same side, seen from one cell or the other. */
  lemma SameSegmentSameSide(scale: nat, c: Cell, d: Side, c2: Cell, d2: Side)
    requires scale > 0 && SideSegment(scale, c, d) == SideSegment(scale, c2, d2)
    ensures (c2, d2) == (c, d) || (c2, d2) == (Across(c, d), Opposite(d))
  {
    ScaleOrder(c.row, c2.row, scale);
    ScaleOrder(c.col, c2.col, scale);
    ScaleOrder(c.row + 1, c2.row, scale);
    ScaleOrder(c.col + 1, c2.col, scale);
    ScaleOrder(c.row, c2.row + 1, scale);
    ScaleOrder(c.col, c2.col + 1, scale);
    ScaleOrder(c.row + 1, c2.row + 1, scale);
    ScaleOrder(c.col + 1, c2.col + 1, scale);
    ScaleOrder(c.row, c.row + 1, scale);
    ScaleOrder(c.col, c.col + 1, scale);
  }

  // ---------------------------------------------------------------------------
  // generateSVG

  /** The wall segments generateSVG draws for one cell: north, west, south, east, where walled. */
  function CellWalls(m: Maze, c: Cell): seq<Segment>
  {
    (if Walled(m, c, North) then [SideSegment(m.scale, c, North)] else [])
    + (if Walled(m, c, West) then [SideSegment(m.scale, c, West)] else [])
    + (if Walled(m, c, South) then [SideSegment(m.scale, c, South)] else [])
    + (if Walled(m, c, East) then [SideSegment(m.scale, c, East)] else [])
  }

  lemma CellWallsMembers(m: Maze, c: Cell, seg: Segment)
    ensures seg in CellWalls(m, c) <==> exists d :: Walled(m, c, d) && seg == SideSegment(m.scale, c, d)
  {
    if seg in CellWalls(m, c) {
      if Walled(m, c, North) && seg == SideSegment(m.scale, c, North) {
      } else if Walled(m, c, West) && seg == SideSegment(m.scale, c, West) {
      } else if Walled(m, c, South) && seg == SideSegment(m.scale, c, South) {
      } else {
        assert Walled(m, c, East) && seg == SideSegment(m.scale, c, East);
      }
    }
  }

  /** All wall segments of the SVG, cell by cell in row-major order. */
  function SvgWalls(m: Maze): seq<Segment>
  {
    RowMajor(m.height, m.width, c => CellWalls(m, c))
  }

  /** The SVG draws a wall on a side of a cell exactly when that side has no passage. */
  lemma SvgWallExactlyWhereWalled(m: Maze, c: Cell, d: Side)
    requires Valid(m) && m.scale > 0 && InGrid(m.height, m.width, c)
    ensures SideSegment(m.scale, c, d) in SvgWalls(m) <==> Walled(m, c, d)
  {
    var f := (x: Cell) => CellWalls(m, x);
    var seg := SideSegment(m.scale, c, d);
    RowMajorMembers(m.height, m.width, f, seg);
    if Walled(m, c, d) {
      CellWallsMembers(m, c, seg);
      assert seg in f(c);
    }
    if seg in SvgWalls(m) {
      var c2 :| InGrid(m.height, m.width, c2) && seg in f(c2);
      CellWallsMembers(m, c2, seg);
      var d2 :| Walled(m, c2, d2) && seg == SideSegment(m.scale, c2, d2);
      SameSegmentSameSide(m.scale, c, d, c2, d2);
      WalledBothWays(m, c, d);
    }
  }

  /** One SVG path command: "M x y " or "L x y ". */
  datatype PathCmd = M(x: int, y: int) | L(x: int, y: int)

  /** The outer border: M0 0 L W 0 L W H L0 H L0 0, with W = width*scale and H = height*scale. */
  function BorderPath(m: Maze): seq<PathCmd>
  {
    var wd, ht := m.width * m.scale, m.height * m.scale;
    [M(0, 0), L(wd, 0), L(wd, ht), L(0, ht), L(0, 0)]
  }

  /** Each wall as a move to its start and a line to its end. */
  function PathData(segs: seq<Segment>): (r: seq<PathCmd>)
    ensures |r| == 2 * |segs|
  {
    if segs == [] then []
    else [M(segs[0].x1, segs[0].y1), L(segs[0].x2, segs[0].y2)] + PathData(segs[1..])
  }

  /** Reads walls back from "M x y L x y" pairs; None when the commands are not such pairs. */
  function ParsePath(cmds: seq<PathCmd>): (r: Option<seq<Segment>>)
    ensures r.Some? ==> 2 * |r.value| == |cmds|
    decreases |cmds|
  {
    if cmds == [] then Some([])
    else if |cmds| >= 2 && cmds[0].M? && cmds[1].L? then
      match ParsePath(cmds[2..])
      case Some(rest) => Some([Segment(cmds[0].x, cmds[0].y, cmds[1].x, cmds[1].y)] + rest)
      case None => None
    else None
  }

  /** The wall commands lose nothing: parsing them gives back the walls. */
  lemma {:induction false} ParsePathData(segs: seq<Segment>)
    ensures ParsePath(PathData(segs)) == Some(segs)
  {
    if segs != [] {
      ParsePathData(segs[1..]);
      assert PathData(segs)[2..] == PathData(segs[1..]);
      assert [segs[0]] + segs[1..] == segs;
    }
  }

  /** generateSVG: the border, then each cell's walls. */
  function GenerateSvg(m: Maze): (r: seq<PathCmd>)
    ensures |r| == 5 + 2 * |SvgWalls(m)|
    ensures r[..5] == BorderPath(m)
    ensures ParsePath(r[5..]) == Some(SvgWalls(m))
  {
    ParsePathData(SvgWalls(m));
    var r := BorderPath(m) + PathData(SvgWalls(m));
    assert r[5..] == PathData(SvgWalls(m));
    r
  }

  // ---------------------------------------------------------------------------
  // getCondensed

  /** Which sides of a node are open, as MapNode.getCondensed reports them. */
  datatype OpenSides = OpenSides(left: bool, right: bool, up: bool, down: bool)

  datatype CondensedNode = CondensedNode(id: int, position: CondensedPosition, connected: OpenSides)

  datatype CondensedMaze = CondensedMaze(
    width: nat, height: nat, scale: nat, nodes: seq<seq<CondensedNode>>, mapData: seq<PathCmd>)

  /** MapNode.getCondensed: a side is open when some connected node lies that way
      (its origin has a smaller or larger x or y). */
  function CondenseNode(m: Maze, c: Cell): CondensedNode
  {
    var here := Origin(m.scale, c, m.created);
    var near := Linked(m, c);
    CondensedNode(
      NodeId(m.width, c),
      GetCondensed(here),
      OpenSides(
        exists d :: d in near && Origin(m.scale, d, m.created).x < here.x,
        exists d :: d in near && Origin(m.scale, d, m.created).x > here.x,
        exists d :: d in near && Origin(m.scale, d, m.created).y < here.y,
        exists d :: d in near && Origin(m.scale, d, m.created).y > here.y))
  }

  /** The open flags are exactly the passages: left is open iff the west side has no wall, etc. */
  lemma CondensedSidesArePassages(m: Maze, c: Cell)
    requires Valid(m) && m.scale > 0 && InGrid(m.height, m.width, c)
    ensures var s := CondenseNode(m, c).connected;
      && (s.left <==> !Walled(m, c, West))
      && (s.right <==> !Walled(m, c, East))
      && (s.up <==> !Walled(m, c, North))
      && (s.down <==> !Walled(m, c, South))
  {
    var s := m.scale;
    forall d | d in Linked(m, c)
      ensures (d.col * s < c.col * s <==> d == Across(c, West))
      ensures (d.col * s > c.col * s <==> d == Across(c, East))
      ensures (d.row * s < c.row * s <==> d == Across(c, North))
      ensures (d.row * s > c.row * s <==> d == Across(c, South))
    {
      assert Adjacent(c, d);
      ScaleOrder(d.col, c.col, s);
      ScaleOrder(c.col, d.col, s);
      ScaleOrder(d.row, c.row, s);
      ScaleOrder(c.row, d.row, s);
    }
  }

  /** Maze.getCondensed: dimensions, the condensed node table (row i, column j) and the SVG path data. */
  function GetCondensedMaze(m: Maze): (r: CondensedMaze)
    ensures |r.nodes| == m.height
    ensures forall i :: 0 <= i < m.height ==> |r.nodes[i]| == m.width
    ensures forall i, j :: 0 <= i < m.height && 0 <= j < m.width ==> r.nodes[i][j] == CondenseNode(m, Cell(i, j))
    ensures |r.mapData| >= 5 && r.mapData[..5] == BorderPath(m)
    ensures ParsePath(r.mapData[5..]) == Some(SvgWalls(m))
  {
    var svg := GenerateSvg(m);
    var nodes := seq(m.height, i requires 0 <= i < m.height =>
      seq(m.width, j requires 0 <= j < m.width => CondenseNode(m, Cell(i, j))));
    CondensedMaze(m.width, m.height, m.scale, nodes, svg)
  }

  /** In the condensed maze, node [i][j] carries id i * width + j and opens exactly where there is
      no wall. */
  lemma CondensedMazeMatches(m: Maze, i: int, j: int)
    requires Valid(m) && m.scale > 0 && InGrid(m.height, m.width, Cell(i, j))
    ensures var n := GetCondensedMaze(m).nodes[i][j];
      && n.id == i * m.width + j
      && (n.connected.left <==> !Walled(m, Cell(i, j), West))
      && (n.connected.right <==> !Walled(m, Cell(i, j), East))
      && (n.connected.up <==> !Walled(m, Cell(i, j), North))
      && (n.connected.down <==> !Walled(m, Cell(i, j), South))
  {
    CondensedSidesArePassages(m, Cell(i, j));
  }
}
