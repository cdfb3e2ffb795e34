/** The rectangular grid of maze cells: bounds, adjacency, node ids and the node
    table that Maze.populateNodes builds (map.js). */
module Grid {
  import opened Geometry

  /** Cell (row, col); `row` is the y index and `col` the x index of nodes[row][col]. */
  datatype Cell = Cell(row: int, col: int)

  predicate InGrid(h: int, w: int, c: Cell)
  {
    0 <= c.row < h && 0 <= c.col < w
  }

  /** All cells of an h x w grid. */
  function Cells(h: nat, w: nat): set<Cell>
  {
    set i, j | 0 <= i < h && 0 <= j < w :: Cell(i, j)
  }

  /** Up/down/left/right adjacency, ignoring bounds. */
  predicate Adjacent(a: Cell, b: Cell)
  {
    || (a.row == b.row && (a.col - b.col == 1 || b.col - a.col == 1))
    || (a.col == b.col && (a.row - b.row == 1 || b.row - a.row == 1))
  }

  /** The `neighbours` list of a cell, in the order populateNodes pushes them: up, down, left, right. */
  function Neighbours(h: nat, w: nat, c: Cell): (r: seq<Cell>)
    requires InGrid(h, w, c)
    ensures forall d :: d in r <==> InGrid(h, w, d) && Adjacent(c, d)
    ensures forall k, l :: 0 <= k < l < |r| ==> r[k] != r[l]
  {
    (if c.row > 0 then [Cell(c.row - 1, c.col)] else [])
    + (if c.row < h - 1 then [Cell(c.row + 1, c.col)] else [])
    + (if c.col > 0 then [Cell(c.row, c.col - 1)] else [])
    + (if c.col < w - 1 then [Cell(c.row, c.col + 1)] else [])
  }

  /** The id populateNodes gives cell (i, j): i * width + j. */
  function NodeId(w: nat, c: Cell): int
  {
    c.row * w + c.col
  }

  /** The world position of a cell's top-left corner: (j * scale, i * scale). */
  function Origin(scale: nat, c: Cell, now: int): Position
  {
    Position((c.col * scale) as real, (c.row * scale) as real, now)
  }

  /** A cell's centre: its origin copied and moved by (scale / 2, scale / 2). */
  function Centre(scale: nat, c: Cell, now: int): (r: Position)
    ensures r.x == (c.col * scale) as real + scale as real / 2.0
    ensures r.y == (c.row * scale) as real + scale as real / 2.0
  {
    MoveBy(Copy(Origin(scale, c, now), now), scale as real / 2.0, scale as real / 2.0, now)
  }

  /** One entry of the nodes table. */
  datatype MapNode = MapNode(id: int, position: Position, neighbours: seq<Cell>)

  /** populateNodes: the height x width table of nodes with ids, origins and neighbour lists. */
  function PopulateNodes(h: nat, w: nat, scale: nat, now: int): (nodes: seq<seq<MapNode>>)
    ensures |nodes| == h
    ensures forall i :: 0 <= i < h ==> |nodes[i]| == w
    ensures forall i, j :: 0 <= i < h && 0 <= j < w ==>
      && nodes[i][j].id == i * w + j && 0 <= nodes[i][j].id < h * w
      && nodes[i][j].position == Origin(scale, Cell(i, j), now)
      && (forall d :: d in nodes[i][j].neighbours <==> InGrid(h, w, d) && Adjacent(Cell(i, j), d))
    ensures forall i, j, k, l :: 0 <= i < h && 0 <= j < w && 0 <= k < h && 0 <= l < w && (i, j) != (k, l) ==>
      nodes[i][j].id != nodes[k][l].id
  {
    var nodes := seq(h, i requires 0 <= i < h =>
      seq(w, j requires 0 <= j < w =>
        MapNode(NodeId(w, Cell(i, j)), Origin(scale, Cell(i, j), now), Neighbours(h, w, Cell(i, j)))));
    forall i, j | 0 <= i < h && 0 <= j < w
      ensures 0 <= nodes[i][j].id < h * w
    {
      NodeIdBijection(h, w, Cell(i, j), Cell(i, j));
    }
    forall i, j, k, l | 0 <= i < h && 0 <= j < w && 0 <= k < h && 0 <= l < w && (i, j) != (k, l)
      ensures nodes[i][j].id != nodes[k][l].id
    {
      assert nodes[i][j].id == NodeId(w, Cell(i, j));
      assert nodes[k][l].id == NodeId(w, Cell(k, l));
      NodeIdBijection(h, w, Cell(i, j), Cell(k, l));
    }
    nodes
  }

  // ---------------------------------------------------------------------------
  // Lemmas

  lemma MulMonotone(a: int, b: int, w: nat)
    requires a < b
    ensures a * w + w <= b * w
  {
    var k := b - a - 1;
    assert k >= 0;
    assert k * w >= 0;
    assert b * w == a * w + w + k * w;
  }

  /** The quotient and remainder of x by w are the only q, r with x = q * w + r and 0 <= r < w. */
  lemma DivModUnique(x: int, w: nat, q: int, r: int)
    requires w > 0 && 0 <= r < w && x == q * w + r
    ensures x / w == q && x % w == r
  {
    var q2, r2 := x / w, x % w;
    assert x == q2 * w + r2 && 0 <= r2 < w;
    if q < q2 {
      MulMonotone(q, q2, w);
    } else if q2 < q {
      MulMonotone(q2, q, w);
    }
  }

  /** Ids are a bijection between the cells and 0 .. h*w - 1, and decode back to the cell. */
  lemma NodeIdBijection(h: nat, w: nat, c: Cell, d: Cell)
    requires InGrid(h, w, c) && InGrid(h, w, d)
    ensures 0 <= NodeId(w, c) < h * w
    ensures NodeId(w, c) == NodeId(w, d) ==> c == d
    ensures NodeId(w, c) / w == c.row && NodeId(w, c) % w == c.col
  {
    DivModUnique(NodeId(w, c), w, c.row, c.col);
    DivModUnique(NodeId(w, d), w, d.row, d.col);
    MulMonotone(c.row, h, w);
    MulMonotone(-1, c.row, w);
  }

  /** Adjacency in the grid is symmetric. */
  lemma NeighboursSymmetric(h: nat, w: nat, c: Cell, d: Cell)
    requires InGrid(h, w, c) && InGrid(h, w, d)
    ensures d in Neighbours(h, w, c) <==> c in Neighbours(h, w, d)
  {
  }

  function RowCells(r: int, w: nat): set<Cell>
  {
    set j | 0 <= j < w :: Cell(r, j)
  }

  lemma {:induction false} RowCellsCard(r: int, w: nat)
    ensures |RowCells(r, w)| == w
  {
    if w > 0 {
      RowCellsCard(r, w - 1);
      assert RowCells(r, w) == RowCells(r, w - 1) + {Cell(r, w - 1)};
    } else {
      assert RowCells(r, w) == {};
    }
  }

  /** The grid is its first h - 1 rows plus the last row, which shares no cell with them. */
  lemma CellsSplit(h: nat, w: nat)
    requires h > 0
    ensures Cells(h, w) == Cells(h - 1, w) + RowCells(h - 1, w)
    ensures Cells(h - 1, w) * RowCells(h - 1, w) == {}
  {
  }

  /** The grid has exactly h * w cells. */
  lemma {:induction false} CellsCard(h: nat, w: nat)
    ensures |Cells(h, w)| == h * w
  {
    if h > 0 {
      CellsCard(h - 1, w);
      RowCellsCard(h - 1, w);
      CellsSplit(h, w);
      assert (h - 1) * w + w == h * w;
    } else {
      assert Cells(h, w) == {};
    }
  }

  /** A set of cells closed under in-grid adjacency. */
  ghost predicate ClosedUnderAdjacency(h: nat, w: nat, s: set<Cell>)
  {
    forall c, d :: c in s && InGrid(h, w, d) && Adjacent(c, d) ==> d in s
  }

  lemma {:induction false} SpreadAlongRow(h: nat, w: nat, s: set<Cell>, r: int, j: int, k: int)
    requires ClosedUnderAdjacency(h, w, s)
    requires InGrid(h, w, Cell(r, j)) && Cell(r, j) in s && 0 <= k < w
    ensures Cell(r, k) in s
    decreases if k < j then j - k else k - j
  {
    if j < k {
      assert Adjacent(Cell(r, j), Cell(r, j + 1));
      SpreadAlongRow(h, w, s, r, j + 1, k);
    } else if k < j {
      assert Adjacent(Cell(r, j), Cell(r, j - 1));
      SpreadAlongRow(h, w, s, r, j - 1, k);
    }
  }

  lemma {:induction false} SpreadAlongColumn(h: nat, w: nat, s: set<Cell>, i: int, j: int, k: int)
    requires ClosedUnderAdjacency(h, w, s)
    requires InGrid(h, w, Cell(i, j)) && Cell(i, j) in s && 0 <= k < h
    ensures Cell(k, j) in s
    decreases if k < i then i - k else k - i
  {
    if i < k {
      assert Adjacent(Cell(i, j), Cell(i + 1, j));
      SpreadAlongColumn(h, w, s, i + 1, j, k);
    } else if k < i {
      assert Adjacent(Cell(i, j), Cell(i - 1, j));
      SpreadAlongColumn(h, w, s, i - 1, j, k);
    }
  }

  /** The grid is connected by adjacency: a closed set holding one cell holds every cell. */
  lemma ClosedCoversGrid(h: nat, w: nat, s: set<Cell>, c0: Cell)
    requires InGrid(h, w, c0) && c0 in s
    requires ClosedUnderAdjacency(h, w, s)
    ensures Cells(h, w) <= s
  {
    forall c | c in Cells(h, w)
      ensures c in s
    {
      SpreadAlongRow(h, w, s, c0.row, c0.col, c.col);
      SpreadAlongColumn(h, w, s, c0.row, c.col, c.row);
    }
  }

  // ---------------------------------------------------------------------------
  // Row-major traversal: for (i = 0; i < height; i++) for (j = 0; j < width; j++)

  /** The pieces f(i, 0) + ... + f(i, w - 1) of one row. */
  function RowPieces<T>(i: int, w: nat, f: Cell -> seq<T>): seq<T>
  {
    if w == 0 then [] else RowPieces(i, w - 1, f) + f(Cell(i, w - 1))
  }

  /** The pieces of every cell, row by row. */
  function RowMajor<T>(h: nat, w: nat, f: Cell -> seq<T>): seq<T>
  {
    if h == 0 then [] else RowMajor(h - 1, w, f) + RowPieces(h - 1, w, f)
  }

  /** A piece of cell (i, j) of the row is in the row's traversal. */
  lemma {:induction false} RowPiecesHas<T>(i: int, w: nat, f: Cell -> seq<T>, x: T, j: int)
    requires 0 <= j < w && x in f(Cell(i, j))
    ensures x in RowPieces(i, w, f)
  {
    if j < w - 1 {
      RowPiecesHas(i, w - 1, f, x, j);
    }
  }

  /** Everything in the row's traversal comes from one of its cells. */
  lemma {:induction false} RowPiecesSource<T>(i: int, w: nat, f: Cell -> seq<T>, x: T) returns (j: int)
    requires x in RowPieces(i, w, f)
    ensures 0 <= j < w && x in f(Cell(i, j))
  {
    if x in f(Cell(i, w - 1)) {
      j := w - 1;
    } else {
      j := RowPiecesSource(i, w - 1, f, x);
    }
  }

  /** A piece of any cell of the grid is in the traversal. */
  lemma {:induction false} RowMajorHas<T>(h: nat, w: nat, f: Cell -> seq<T>, x: T, c: Cell)
    requires InGrid(h, w, c) && x in f(c)
    ensures x in RowMajor(h, w, f)
  {
    var before, last := RowMajor(h - 1, w, f), RowPieces(h - 1, w, f);
    assert RowMajor(h, w, f) == before + last;
    if c.row < h - 1 {
      RowMajorHas(h - 1, w, f, x, c);
      assert x in before;
    } else {
      RowPiecesHas(h - 1, w, f, x, c.col);
      assert x in last;
    }
  }

  /** Everything in the traversal comes from one of the grid's cells. */
  lemma {:induction false} RowMajorSource<T>(h: nat, w: nat, f: Cell -> seq<T>, x: T) returns (c: Cell)
    requires x in RowMajor(h, w, f)
    ensures InGrid(h, w, c) && x in f(c)
  {
    var before, last := RowMajor(h - 1, w, f), RowPieces(h - 1, w, f);
    assert RowMajor(h, w, f) == before + last;
    if x in last {
      var j := RowPiecesSource(h - 1, w, f, x);
      c := Cell(h - 1, j);
    } else {
      assert x in before;
      c := RowMajorSource(h - 1, w, f, x);
    }
  }

  /** Something is in the traversal exactly when some cell of the grid contributes it. */
  lemma RowMajorMembers<T>(h: nat, w: nat, f: Cell -> seq<T>, x: T)
    ensures x in RowMajor(h, w, f) <==> exists c :: InGrid(h, w, c) && x in f(c)
  {
    if x in RowMajor(h, w, f) {
      var c := RowMajorSource(h, w, f, x);
    }
    if exists c :: InGrid(h, w, c) && x in f(c) {
      var c :| InGrid(h, w, c) && x in f(c);
      RowMajorHas(h, w, f, x, c);
    }
  }

  // ---------------------------------------------------------------------------
  // Scaling cell indices to world coordinates

  /** Multiplying by a positive scale keeps order both ways. */
  lemma ScaleOrder(a: int, b: int, s: nat)
    requires s > 0
    ensures a < b <==> a * s < b * s
    ensures a == b <==> a * s == b * s
  {
    if a < b {
      MulMonotone(a, b, s);
    } else if b < a {
      MulMonotone(b, a, s);
    }
  }

  /** The square of cell c, scaled, holds point (x, y). */
  predicate InSquare(scale: nat, c: Cell, x: real, y: real)
  {
    && (c.col * scale) as real <= x < ((c.col + 1) * scale) as real
    && (c.row * scale) as real <= y < ((c.row + 1) * scale) as real
  }

  /** Math.floor(v / scale) for 0 <= v < n * scale: the index of the band holding v. */
  lemma FloorDivBand(v: real, s: nat, n: nat)
    requires s > 0 && 0.0 <= v < (n * s) as real
    ensures 0 <= (v / s as real).Floor < n
    ensures ((v / s as real).Floor * s) as real <= v < (((v / s as real).Floor + 1) * s) as real
  {
    var sr := s as real;
    var q := v / sr;
    var f := q.Floor;
    DivTimes(v, sr);
    CastMul(n, s);
    QuotientRange(v, sr, q, n as real);
    CastMul(f, s);
    CastMul(f + 1, s);
    FloorBand(v, sr, q, f as real);
  }

  /** A quotient of a value in [0, n * d) lies in [0, n). */
  lemma QuotientRange(v: real, d: real, q: real, n: real)
    requires d > 0.0 && q * d == v && 0.0 <= v < n * d
    ensures 0.0 <= q < n
  {
    if q >= n {
      MulLe(n, q, d);
    }
    if q < 0.0 {
      MulLt(q, 0.0, d);
    }
  }

  /** f <= q < f + 1 scales to f * d <= q * d < f * d + d for a positive d. */
  lemma FloorBand(v: real, d: real, q: real, f: real)
    requires d > 0.0 && q * d == v && f <= q < f + 1.0
    ensures f * d <= v
    ensures v < f * d + d
  {
    var e := q - f;
    assert v == f * d + e * d;
    MulLe(0.0, e, d);
    MulLt(e, 1.0, d);
    assert e * d < d;
    assert f * d + e * d < f * d + d;
  }

  lemma DivTimes(v: real, d: real)
    requires d > 0.0
    ensures v / d * d == v
  {
  }

  lemma CastMul(a: int, b: int)
    ensures (a * b) as real == a as real * b as real
  {
  }

  /** Only one band index k has k * s <= v < (k + 1) * s. */
  lemma BandUnique(v: real, s: nat, k: int, l: int)
    requires s > 0
    requires (k * s) as real <= v < ((k + 1) * s) as real
    requires (l * s) as real <= v < ((l + 1) * s) as real
    ensures k == l
  {
    if k < l {
      ScaleOrder(k + 1, l + 1, s);
      MulMonotone(k, l, s);
    } else if l < k {
      MulMonotone(l, k, s);
    }
  }

  /** Squares of different cells do not overlap. */
  lemma SquareUnique(scale: nat, c: Cell, d: Cell, x: real, y: real)
    requires scale > 0 && InSquare(scale, c, x, y) && InSquare(scale, d, x, y)
    ensures c == d
  {
    BandUnique(x, scale, c.col, d.col);
    BandUnique(y, scale, c.row, d.row);
  }

  /** A cell's centre lies in its own square. */
  lemma CentreInSquare(scale: nat, c: Cell, now: int)
    requires scale > 0
    ensures InSquare(scale, c, Centre(scale, c, now).x, Centre(scale, c, now).y)
  {
    assert ((c.col + 1) * scale) as real == (c.col * scale) as real + scale as real;
    assert ((c.row + 1) * scale) as real == (c.row * scale) as real + scale as real;
  }
}
