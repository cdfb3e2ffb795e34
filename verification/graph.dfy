/** The `connected` relation of a maze as a graph: arcs, symmetry, paths and reachability. */
module Graph {
  import opened Grid

  /** For each cell, the cells it is connected to (no wall in between). */
  type Conn = map<Cell, set<Cell>>

  /** Every ordered pair (a, b) with b in a's connected set. */
  function Arcs(g: Conn): set<(Cell, Cell)>
  {
    set a, b | a in g && b in g[a] :: (a, b)
  }

  /** Connections go both ways. */
  ghost predicate Symmetric(g: Conn)
  {
    forall a, b :: a in g && b in g[a] ==> b in g && a in g[b]
  }

  /** Every connection joins two grid-adjacent cells of the grid (so connected is a subset of neighbours). */
  ghost predicate WithinGrid(h: nat, w: nat, g: Conn)
  {
    && g.Keys == Cells(h, w)
    && forall a, b :: a in g && b in g[a] ==> InGrid(h, w, b) && Adjacent(a, b)
  }

  /** `g2` has every connection of `g` (edges are only ever added). */
  ghost predicate SubGraph(g: Conn, g2: Conn)
  {
    && g.Keys == g2.Keys
    && forall a :: a in g ==> g[a] <= g2[a]
  }

  ghost predicate IsPath(g: Conn, p: seq<Cell>)
  {
    && |p| >= 1
    && (forall k :: 0 <= k < |p| ==> p[k] in g)
    && (forall k :: 0 <= k < |p| - 1 ==> p[k + 1] in g[p[k]])
  }

  /** There is a walk of at most `n` connections from a to b. */
  ghost predicate Within(g: Conn, a: Cell, b: Cell, n: nat)
  {
    exists p :: IsPath(g, p) && p[0] == a && p[|p| - 1] == b && |p| <= n + 1
  }

  ghost predicate Reachable(g: Conn, a: Cell, b: Cell)
  {
    exists p :: IsPath(g, p) && p[0] == a && p[|p| - 1] == b
  }

  /** Every cell reaches every other. */
  ghost predicate Connected(g: Conn)
  {
    forall a, b :: a in g && b in g ==> Reachable(g, a, b)
  }

  /** Both pushes of one new edge: a.connected.push(b); b.connected.push(a). */
  function AddEdge(g: Conn, a: Cell, b: Cell): (r: Conn)
    requires a in g && b in g
    ensures SubGraph(g, r)
    ensures b in r[a] && a in r[b]
  {
    g[a := g[a] + {b}][b := g[b] + {a}]
  }

  /** The new edge adds exactly its two arcs. */
  lemma AddEdgeArcs(g: Conn, a: Cell, b: Cell)
    requires a in g && b in g
    ensures Arcs(AddEdge(g, a, b)) == Arcs(g) + {(a, b), (b, a)}
  {
    var r := AddEdge(g, a, b);
    forall e
      ensures e in Arcs(r) <==> e in Arcs(g) || e == (a, b) || e == (b, a)
    {
      if e in Arcs(r) {
        assert e.1 in r[e.0];
      }
      if e in Arcs(g) {
        assert e.1 in g[e.0] && e.1 in r[e.0];
      }
    }
  }

  // ---------------------------------------------------------------------------
  // Lemmas

  /** Adding an edge between two grid-adjacent cells keeps the relation symmetric and inside the grid. */
  lemma AddEdgeKeepsShape(h: nat, w: nat, g: Conn, a: Cell, b: Cell)
    requires WithinGrid(h, w, g) && Symmetric(g)
    requires InGrid(h, w, a) && InGrid(h, w, b) && Adjacent(a, b)
    ensures WithinGrid(h, w, AddEdge(g, a, b)) && Symmetric(AddEdge(g, a, b))
  {
  }

  /** A path of g is a path of every supergraph. */
  lemma PathInSuperGraph(g: Conn, g2: Conn, p: seq<Cell>)
    requires SubGraph(g, g2) && IsPath(g, p)
    ensures IsPath(g2, p)
  {
  }

  lemma ReachableInSuperGraph(g: Conn, g2: Conn, a: Cell, b: Cell)
    requires SubGraph(g, g2) && Reachable(g, a, b)
    ensures Reachable(g2, a, b)
  {
    var p :| IsPath(g, p) && p[0] == a && p[|p| - 1] == b;
    PathInSuperGraph(g, g2, p);
  }

  lemma ConnectedInSuperGraph(g: Conn, g2: Conn)
    requires SubGraph(g, g2) && Connected(g)
    ensures Connected(g2)
  {
    forall a, b | a in g2 && b in g2
      ensures Reachable(g2, a, b)
    {
      ReachableInSuperGraph(g, g2, a, b);
    }
  }

  /** Extending a path by one connection. */
  lemma PathExtend(g: Conn, p: seq<Cell>, c: Cell)
    requires IsPath(g, p) && c in g && c in g[p[|p| - 1]]
    ensures IsPath(g, p + [c])
  {
  }

  lemma PathConcat(g: Conn, p: seq<Cell>, q: seq<Cell>)
    requires IsPath(g, p) && IsPath(g, q) && p[|p| - 1] == q[0]
    ensures IsPath(g, p + q[1..])
  {
    var r := p + q[1..];
    forall k | 0 <= k < |r| - 1
      ensures r[k + 1] in g[r[k]]
    {
      if k >= |p| - 1 {
        assert r[k] == q[k - |p| + 1] && r[k + 1] == q[k - |p| + 2];
      }
    }
  }

  function Reverse(p: seq<Cell>): (r: seq<Cell>)
    ensures |r| == |p|
    ensures forall k :: 0 <= k < |p| ==> r[k] == p[|p| - 1 - k]
  {
    seq(|p|, k requires 0 <= k < |p| => p[|p| - 1 - k])
  }

  lemma PathReverse(g: Conn, p: seq<Cell>)
    requires Symmetric(g) && IsPath(g, p)
    ensures IsPath(g, Reverse(p))
  {
    var r := Reverse(p);
    forall k | 0 <= k < |r| - 1
      ensures r[k + 1] in g[r[k]]
    {
      var m := |p| - 2 - k;
      assert r[k] == p[m + 1] && r[k + 1] == p[m];
    }
  }

  /** Reachability from one root, in a symmetric graph, links every pair. */
  lemma RootReachesAll(g: Conn, root: Cell)
    requires Symmetric(g)
    requires forall c :: c in g ==> Reachable(g, root, c)
    ensures Connected(g)
  {
    forall a, b | a in g && b in g
      ensures Reachable(g, a, b)
    {
      var p :| IsPath(g, p) && p[0] == root && p[|p| - 1] == a;
      var q :| IsPath(g, q) && q[0] == root && q[|q| - 1] == b;
      PathReverse(g, p);
      var rp := Reverse(p);
      PathConcat(g, rp, q);
      var r := rp + q[1..];
      assert r[0] == a;
      assert r[|r| - 1] == b;
    }
  }

  /** A walk of at most n steps is also one of at most n + k steps. */
  lemma WithinWeaken(g: Conn, a: Cell, b: Cell, n: nat, m: nat)
    requires Within(g, a, b, n) && n <= m
    ensures Within(g, a, b, m)
  {
  }

  /** A walk from a neighbour of a adds one step. */
  lemma WithinStep(g: Conn, a: Cell, c: Cell, b: Cell, n: nat)
    requires Symmetric(g) && a in g && c in g[a] && Within(g, c, b, n)
    ensures Within(g, a, b, n + 1)
  {
    var p :| IsPath(g, p) && p[0] == c && p[|p| - 1] == b && |p| <= n + 1;
    var q := [a] + p;
    assert IsPath(g, q) by {
      forall k | 0 <= k < |q| - 1
        ensures q[k + 1] in g[q[k]]
      {
        if k > 0 {
          assert q[k] == p[k - 1] && q[k + 1] == p[k];
        }
      }
    }
    assert q[0] == a && q[|q| - 1] == b;
  }

  // ---------------------------------------------------------------------------
  // Counting the grid's possible passages

  function RightArc(c: Cell): (Cell, Cell) { (c, Cell(c.row, c.col + 1)) }
  function LeftArc(c: Cell): (Cell, Cell) { (Cell(c.row, c.col + 1), c) }
  function DownArc(c: Cell): (Cell, Cell) { (c, Cell(c.row + 1, c.col)) }
  function UpArc(c: Cell): (Cell, Cell) { (Cell(c.row + 1, c.col), c) }

  /** Passages towards the right neighbour, and back. */
  function RightArcs(h: nat, w: nat): set<(Cell, Cell)>
    requires w >= 1
  {
    set c | c in Cells(h, w - 1) :: RightArc(c)
  }

  function LeftArcs(h: nat, w: nat): set<(Cell, Cell)>
    requires w >= 1
  {
    set c | c in Cells(h, w - 1) :: LeftArc(c)
  }

  /** Passages towards the neighbour below, and back. */
  function DownArcs(h: nat, w: nat): set<(Cell, Cell)>
    requires h >= 1
  {
    set c | c in Cells(h - 1, w) :: DownArc(c)
  }

  function UpArcs(h: nat, w: nat): set<(Cell, Cell)>
    requires h >= 1
  {
    set c | c in Cells(h - 1, w) :: UpArc(c)
  }

  /** Every ordered pair of grid-adjacent cells: the arcs of a maze with no inner walls. */
  function GridArcs(h: nat, w: nat): (r: set<(Cell, Cell)>)
    requires h >= 1 && w >= 1
    ensures forall a, b :: (a, b) in r <==> InGrid(h, w, a) && InGrid(h, w, b) && Adjacent(a, b)
  {
    var r := RightArcs(h, w) + LeftArcs(h, w) + DownArcs(h, w) + UpArcs(h, w);
    assert forall a, b :: InGrid(h, w, a) && InGrid(h, w, b) && Adjacent(a, b) ==> (a, b) in r by {
      forall a, b | InGrid(h, w, a) && InGrid(h, w, b) && Adjacent(a, b)
        ensures (a, b) in r
      {
        if a.row == b.row && b.col == a.col + 1 {
          assert a in Cells(h, w - 1) && RightArc(a) == (a, b);
        } else if a.row == b.row && a.col == b.col + 1 {
          assert b in Cells(h, w - 1) && LeftArc(b) == (a, b);
        } else if a.col == b.col && b.row == a.row + 1 {
          assert a in Cells(h - 1, w) && DownArc(a) == (a, b);
        } else {
          assert b in Cells(h - 1, w) && UpArc(b) == (a, b);
        }
      }
    }
    r
  }

  /** The number of undirected edges of the full grid graph (maxEdges in removeWalls). */
  function MaxEdges(h: nat, w: nat): int
  {
    h * w * 2 - h - w
  }

  /** A set that is exactly the injective image of another has the other's size. */
  lemma {:induction false} InjectiveImageCard<A, B>(s: set<A>, t: set<B>, f: A -> B)
    requires forall x, y :: x in s && y in s && f(x) == f(y) ==> x == y
    requires forall x :: x in s ==> f(x) in t
    requires forall y :: y in t ==> exists x :: x in s && f(x) == y
    ensures |t| == |s|
    decreases |s|
  {
    if s != {} {
      var x :| x in s;
      InjectiveImageCard(s - {x}, t - {f(x)}, f);
    } else {
      assert forall y :: y !in t;
    }
  }

  lemma RightLeftCard(h: nat, w: nat)
    requires w >= 1
    ensures |RightArcs(h, w)| == h * (w - 1) && |LeftArcs(h, w)| == h * (w - 1)
  {
    CellsCard(h, w - 1);
    InjectiveImageCard(Cells(h, w - 1), RightArcs(h, w), RightArc);
    InjectiveImageCard(Cells(h, w - 1), LeftArcs(h, w), LeftArc);
  }

  lemma DownUpCard(h: nat, w: nat)
    requires h >= 1
    ensures |DownArcs(h, w)| == (h - 1) * w && |UpArcs(h, w)| == (h - 1) * w
  {
    CellsCard(h - 1, w);
    InjectiveImageCard(Cells(h - 1, w), DownArcs(h, w), DownArc);
    InjectiveImageCard(Cells(h - 1, w), UpArcs(h, w), UpArc);
  }

  lemma {:induction false} DisjointUnionCard<T>(a: set<T>, b: set<T>)
    requires a * b == {}
    ensures |a + b| == |a| + |b|
  {
    if b != {} {
      var x :| x in b;
      DisjointUnionCard(a, b - {x});
      assert a + b == (a + (b - {x})) + {x};
    }
  }

  /** The full grid has exactly 2 * maxEdges arcs. */
  lemma GridArcsCard(h: nat, w: nat)
    requires h >= 1 && w >= 1
    ensures |GridArcs(h, w)| == 2 * MaxEdges(h, w)
  {
    RightLeftCard(h, w);
    DownUpCard(h, w);
    var r, l, d, u := RightArcs(h, w), LeftArcs(h, w), DownArcs(h, w), UpArcs(h, w);
    assert r * l == {} by {
      forall e | e in r ensures e !in l { }
    }
    assert (r + l) * d == {} by {
      forall e | e in r + l ensures e !in d { }
    }
    assert (r + l + d) * u == {} by {
      forall e | e in r + l + d ensures e !in u { }
    }
    DisjointUnionCard(r, l);
    DisjointUnionCard(r + l, d);
    DisjointUnionCard(r + l + d, u);
    assert GridArcs(h, w) == r + l + d + u;
    assert h * (w - 1) == h * w - h;
    assert (h - 1) * w == h * w - w;
  }

  /** A maze's arcs are grid arcs, so it has at most 2 * maxEdges of them. */
  lemma ArcsWithinGrid(h: nat, w: nat, g: Conn)
    requires h >= 1 && w >= 1 && WithinGrid(h, w, g)
    ensures Arcs(g) <= GridArcs(h, w)
    ensures |Arcs(g)| <= 2 * MaxEdges(h, w)
  {
    var all := GridArcs(h, w);
    forall e | e in Arcs(g)
      ensures e in all
    {
      assert e.1 in g[e.0];
      assert InGrid(h, w, e.0) && InGrid(h, w, e.1) && Adjacent(e.0, e.1);
    }
    GridArcsCard(h, w);
    SubsetCard(Arcs(g), GridArcs(h, w));
  }

  lemma {:induction false} SubsetCard<T>(a: set<T>, b: set<T>)
    requires a <= b
    ensures |a| <= |b|
    decreases |b|
  {
    if a != {} {
      var x :| x in a;
      SubsetCard(a - {x}, b - {x});
    }
  }

  predicate Distinct<T(==)>(s: seq<T>)
  {
    forall k, l :: 0 <= k < l < |s| ==> s[k] != s[l]
  }

  /** A duplicate-free sequence has as many distinct elements as entries. */
  lemma {:induction false} DistinctSeqCard<T>(s: seq<T>)
    requires Distinct(s)
    ensures |set x | x in s| == |s|
  {
    if s != [] {
      var t := s[..|s| - 1];
      DistinctSeqCard(t);
      assert (set x | x in s) == (set x | x in t) + {s[|s| - 1]};
      assert s[|s| - 1] !in t;
    } else {
      assert (set x | x in s) == {};
    }
  }

  // ---------------------------------------------------------------------------
  // Breadth-first layers (the rocket's path search)

  /** Every connected cell is itself a key of the relation. */
  ghost predicate Closed(g: Conn)
  {
    forall a, b :: a in g && b in g[a] ==> b in g
  }

  /** One breadth-first layer: the set plus every cell connected to one of its members. */
  function Expand(g: Conn, b: set<Cell>): (r: set<Cell>)
    ensures b <= r
    ensures forall y :: y in r ==> y in b || exists x :: x in b && x in g && y in g[x]
  {
    b + (set x, y | x in b && x in g && y in g[x] :: y)
  }

  /** The cells found by a breadth-first search from s after k layers. */
  function Ball(g: Conn, s: Cell, k: nat): set<Cell>
    decreases k
  {
    if k == 0 then {s} else Expand(g, Ball(g, s, k - 1))
  }

  /** The k-th layer holds exactly the cells within k connections of s. */
  lemma BallWithin(g: Conn, s: Cell, k: nat, t: Cell)
    requires Closed(g) && s in g
    ensures t in Ball(g, s, k) <==> Within(g, s, t, k)
  {
    if t in Ball(g, s, k) {
      BallHasWithin(g, s, k, t);
    }
    if Within(g, s, t, k) {
      WithinInBall(g, s, k, t);
    }
  }

  /** Every cell of the k-th layer is within k connections of s. */
  lemma {:induction false} BallHasWithin(g: Conn, s: Cell, k: nat, t: Cell)
    requires Closed(g) && s in g && t in Ball(g, s, k)
    ensures Within(g, s, t, k)
    decreases k
  {
    if k == 0 {
      assert t == s && IsPath(g, [s]);
    } else {
      var prev := Ball(g, s, k - 1);
      if t in prev {
        BallHasWithin(g, s, k - 1, t);
        WithinWeaken(g, s, t, k - 1, k);
      } else {
        var x :| x in prev && x in g && t in g[x];
        BallHasWithin(g, s, k - 1, x);
        var p :| IsPath(g, p) && p[0] == s && p[|p| - 1] == x && |p| <= k;
        PathExtend(g, p, t);
        assert (p + [t])[0] == s && (p + [t])[|p + [t]| - 1] == t;
      }
    }
  }

  /** Every cell within k connections of s is in the k-th layer. */
  lemma {:induction false} WithinInBall(g: Conn, s: Cell, k: nat, t: Cell)
    requires Within(g, s, t, k)
    ensures t in Ball(g, s, k)
    decreases k
  {
    var p :| IsPath(g, p) && p[0] == s && p[|p| - 1] == t && |p| <= k + 1;
    if k == 0 {
      assert |p| == 1;
    } else if |p| <= k {
      WithinInBall(g, s, k - 1, t);
    } else {
      var q := p[..k];
      assert IsPath(g, q) && q[0] == s && q[|q| - 1] == p[k - 1];
      WithinInBall(g, s, k - 1, p[k - 1]);
      assert p[k] in g[p[k - 1]];
      ExpandHas(g, Ball(g, s, k - 1), p[k - 1], t);
    }
  }

  lemma ExpandHas(g: Conn, b: set<Cell>, x: Cell, y: Cell)
    requires x in b && x in g && y in g[x]
    ensures y in Expand(g, b)
  {
  }

  lemma {:induction false} BallInKeys(g: Conn, s: Cell, k: nat)
    requires Closed(g) && s in g
    ensures Ball(g, s, k) <= g.Keys
    decreases k
  {
    if k > 0 {
      BallInKeys(g, s, k - 1);
    }
  }

  /** Once a layer adds nothing, every later layer is the same set. */
  lemma {:induction false} BallStable(g: Conn, s: Cell, k: nat, j: nat)
    requires Expand(g, Ball(g, s, k)) == Ball(g, s, k) && k <= j
    ensures Ball(g, s, j) == Ball(g, s, k)
    decreases j
  {
    if j > k {
      BallStable(g, s, k, j - 1);
    }
  }

  /** A search that stops growing has found every reachable cell. */
  lemma StableBallHasReachable(g: Conn, s: Cell, k: nat, t: Cell)
    requires Closed(g) && s in g
    requires Expand(g, Ball(g, s, k)) == Ball(g, s, k)
    ensures t in Ball(g, s, k) <==> Reachable(g, s, t)
  {
    if Reachable(g, s, t) {
      var p :| IsPath(g, p) && p[0] == s && p[|p| - 1] == t;
      var n := |p| - 1;
      BallWithin(g, s, n, t);
      if n >= k {
        BallStable(g, s, k, n);
      } else {
        BallWithin(g, s, k, t);
        WithinWeaken(g, s, t, n, k);
      }
    }
    if t in Ball(g, s, k) {
      BallWithin(g, s, k, t);
    }
  }

  /** The first step of a walk that leaves s. */
  lemma FirstStep(g: Conn, s: Cell, t: Cell, k: nat) returns (n: Cell)
    requires Within(g, s, t, k + 1) && s != t
    ensures n in g[s] && Within(g, n, t, k)
  {
    var p :| IsPath(g, p) && p[0] == s && p[|p| - 1] == t && |p| <= k + 2;
    n := p[1];
    var q := p[1..];
    assert IsPath(g, q) && q[0] == n && q[|q| - 1] == t;
  }

  /** A bounded walk is a walk. */
  lemma WithinReachable(g: Conn, a: Cell, b: Cell, n: nat)
    requires Within(g, a, b, n)
    ensures Reachable(g, a, b)
  {
    var p :| IsPath(g, p) && p[0] == a && p[|p| - 1] == b && |p| <= n + 1;
  }
}
