/** A tank: its hit box, point-in-box test, weapon charges and wall-sliding movement (player.js). */
module Players {
  import opened Geometry
  import opened MazeMap
  import opened Walls

  /** The projectile kinds a player can fire; the letters B, R, L, A, M name them on the wire. */
  datatype Weapon = Bullet | Rocket | Laser | AirBurst | Mine

  /** The player's state. `id` stands for the socket id; the socket itself is not modelled. */
  datatype Player = Player(
    id: nat,
    name: string,
    gameCode: string,
    position: Position,
    bodyAngle: real,
    turretAngle: real,
    host: bool,
    width: real,
    height: real,
    alive: bool,
    score: int,
    weapon: Weapon,
    uses: int)

  /** `new Player(socket)` at time `now`. */
  function NewPlayer(id: nat, now: int): (r: Player)
    ensures r.id == id && r.name == [] && r.gameCode == [] && !r.host
    ensures r.position.x == 0.0 && r.position.y == 0.0 && r.position.lastUpdated == now
    ensures r.bodyAngle == 0.0 && r.turretAngle == 0.0
    ensures r.width == 35.0 && r.height == 35.0
    ensures r.alive && r.score == 0 && r.weapon == Bullet && r.uses == 0
  {
    Player(id, "", "", NewPosition(0.0, 0.0, now), 0.0, 0.0, false, 35.0, 35.0, true, 0, Bullet, 0)
  }

  // ---------------------------------------------------------------------------
  // Hit box

  /** getNonRotatedPoints: the corners top-left, top-right, bottom-right, bottom-left,
      each a copy of the position moved by half the size (stamped `now`). */
  function NonRotatedPoints(p: Player, now: int): (r: seq<Position>)
    ensures |r| == 4
    ensures r[0].x == p.position.x - p.width / 2.0 && r[0].y == p.position.y - p.height / 2.0
    ensures r[1].x == p.position.x + p.width / 2.0 && r[1].y == p.position.y - p.height / 2.0
    ensures r[2].x == p.position.x + p.width / 2.0 && r[2].y == p.position.y + p.height / 2.0
    ensures r[3].x == p.position.x - p.width / 2.0 && r[3].y == p.position.y + p.height / 2.0
  {
    [ MoveBy(Copy(p.position, now), -p.width / 2.0, -p.height / 2.0, now),
      MoveBy(Copy(p.position, now), p.width / 2.0, -p.height / 2.0, now),
      MoveBy(Copy(p.position, now), p.width / 2.0, p.height / 2.0, now),
      MoveBy(Copy(p.position, now), -p.width / 2.0, p.height / 2.0, now) ]
  }

  function Abs(x: real): real
  {
    if x < 0.0 then -x else x
  }

  /** How far `d` goes beyond `half`, or 0 when it does not. */
  function Excess(d: real, half: real): real
  {
    if d > half then d - half else 0.0
  }

  function Cross(a: Position, b: Position): real
  {
    a.x * b.y - b.x * a.y
  }

  /** Twice the area of the triangle from point q to the edge a-b. */
  function EdgeToPoint(a: Position, b: Position, q: Position): real
  {
    Abs((a.x - q.x) * (b.y - a.y) - (a.x - b.x) * (q.y - a.y))
  }

  /** The quadrilateral's area by the shoelace formula. */
  function QuadArea(ps: seq<Position>): real
    requires |ps| == 4
  {
    Abs((Cross(ps[0], ps[1]) + Cross(ps[1], ps[2]) + Cross(ps[2], ps[3]) + Cross(ps[3], ps[0])) / 2.0)
  }

  /** The sum of the areas of the four triangles from q to the quadrilateral's edges. */
  function AreaToPoint(ps: seq<Position>, q: Position): real
    requires |ps| == 4
  {
    Abs((EdgeToPoint(ps[0], ps[1], q) + EdgeToPoint(ps[1], ps[2], q)
      + EdgeToPoint(ps[2], ps[3], q) + EdgeToPoint(ps[3], ps[0], q)) / 2.0)
  }

  /** collidePoint on the unrotated box: the triangle areas add up to the box's area
      to within 1. */
  function CollidePoint(p: Player, q: Position, now: int): bool
  {
    var ps := NonRotatedPoints(p, now);
    Abs(AreaToPoint(ps, q) - QuadArea(ps)) < 1.0
  }

  lemma SumAbs(b: real, d: real)
    requires b >= 0.0
    ensures Abs(b + d) + Abs(b - d) == 2.0 * b + 2.0 * Excess(Abs(d), b)
  {
  }

  /** The area test measures how far the point lies outside the box: the gap between the
      areas is the width times the vertical overshoot plus the height times the horizontal one. */
  lemma CollidePointMeans(p: Player, q: Position, now: int)
    requires p.width >= 0.0 && p.height >= 0.0
    ensures CollidePoint(p, q, now) <==>
      p.width * Excess(Abs(q.y - p.position.y), p.height / 2.0)
      + p.height * Excess(Abs(q.x - p.position.x), p.width / 2.0) < 1.0
  {
    PlayerGap(p, q, now);
  }

  /** The area gap for the player's own box. */
  lemma PlayerGap(p: Player, q: Position, now: int)
    requires p.width >= 0.0 && p.height >= 0.0
    ensures Abs(AreaToPoint(NonRotatedPoints(p, now), q) - QuadArea(NonRotatedPoints(p, now))) ==
      p.width * Excess(Abs(q.y - p.position.y), p.height / 2.0) + p.height * Excess(Abs(q.x - p.position.x), p.width / 2.0)
  {
    BoxGap(NonRotatedPoints(p, now), q, p.position.x, p.position.y, p.width, p.height);
  }

  /** The area gap for the w-by-h box centred on (x, y). */
  lemma BoxGap(ps: seq<Position>, q: Position, x: real, y: real, w: real, h: real)
    requires |ps| == 4 && w >= 0.0 && h >= 0.0
    requires ps[0].x == x - w / 2.0 && ps[0].y == y - h / 2.0 && ps[1].x == x + w / 2.0 && ps[1].y == y - h / 2.0
    requires ps[2].x == x + w / 2.0 && ps[2].y == y + h / 2.0 && ps[3].x == x - w / 2.0 && ps[3].y == y + h / 2.0
    ensures Abs(AreaToPoint(ps, q) - QuadArea(ps)) == w * Excess(Abs(q.y - y), h / 2.0) + h * Excess(Abs(q.x - x), w / 2.0)
  {
    var a, b, dx, dy := w / 2.0, h / 2.0, q.x - x, q.y - y;
    assert w * Excess(Abs(dy), b) + h * Excess(Abs(dx), a)
      == w * Excess(Abs(q.y - y), h / 2.0) + h * Excess(Abs(q.x - x), w / 2.0);
    HalfBoxGap(ps, q, x, y, w, h, a, b, dx, dy);
  }

  /** The area gap for the w-by-h box with corners (x ± a, y ± b). */
  lemma HalfBoxGap(ps: seq<Position>, q: Position, x: real, y: real, w: real, h: real, a: real, b: real, dx: real, dy: real)
    requires |ps| == 4 && a >= 0.0 && b >= 0.0 && w == 2.0 * a && h == 2.0 * b && dx == q.x - x && dy == q.y - y
    requires ps[0].x == x - a && ps[0].y == y - b && ps[1].x == x + a && ps[1].y == y - b
    requires ps[2].x == x + a && ps[2].y == y + b && ps[3].x == x - a && ps[3].y == y + b
    ensures Abs(AreaToPoint(ps, q) - QuadArea(ps)) == w * Excess(Abs(dy), b) + h * Excess(Abs(dx), a)
  {
    BoxEdges(ps, q, x, y, a, b, dx, dy);
    ShoelaceOfBox(ps, x, y, a, b);
    RealGap(AreaToPoint(ps, q), QuadArea(ps), w, h, a, b, dx, dy);
  }

  /** The gap between the triangle areas and the box area, over plain reals. */
  lemma RealGap(toPoint: real, area: real, w: real, h: real, a: real, b: real, dx: real, dy: real)
    requires a >= 0.0 && b >= 0.0 && w == 2.0 * a && h == 2.0 * b
    requires toPoint == a * Abs(b + dy) + a * Abs(b - dy) + b * Abs(a - dx) + b * Abs(a + dx)
    requires area == 4.0 * a * b
    ensures Abs(toPoint - area) == w * Excess(Abs(dy), b) + h * Excess(Abs(dx), a)
  {
    SumAbs(b, dy);
    SumAbs(a, dx);
    ScaleSum(a, Abs(b + dy), Abs(b - dy), b, Excess(Abs(dy), b));
    ScaleSum(b, Abs(a - dx), Abs(a + dx), a, Excess(Abs(dx), a));
    GapValue(toPoint, area, w, h, a, b, Abs(b + dy), Abs(b - dy), Abs(a - dx), Abs(a + dx),
      Excess(Abs(dy), b), Excess(Abs(dx), a));
  }

  /** The four triangle areas from q to the edges of the box with corners (x ± a, y ± b). */
  lemma BoxEdges(ps: seq<Position>, q: Position, x: real, y: real, a: real, b: real, dx: real, dy: real)
    requires |ps| == 4 && a >= 0.0 && b >= 0.0 && dx == q.x - x && dy == q.y - y
    requires ps[0].x == x - a && ps[0].y == y - b && ps[1].x == x + a && ps[1].y == y - b
    requires ps[2].x == x + a && ps[2].y == y + b && ps[3].x == x - a && ps[3].y == y + b
    ensures AreaToPoint(ps, q) == a * Abs(b + dy) + a * Abs(b - dy) + b * Abs(a - dx) + b * Abs(a + dx)
  {
    var e1, e2, e3, e4 := EdgeToPoint(ps[0], ps[1], q), EdgeToPoint(ps[1], ps[2], q),
      EdgeToPoint(ps[2], ps[3], q), EdgeToPoint(ps[3], ps[0], q);
    var t1, t2, t3, t4 := Abs(b + dy), Abs(b - dy), Abs(a - dx), Abs(a + dx);
    EdgeTop(ps[0], ps[1], q, x, y, a, b, dy);
    EdgeRight(ps[1], ps[2], q, x, y, a, b, dx);
    EdgeBottom(ps[2], ps[3], q, x, y, a, b, dy);
    EdgeLeft(ps[3], ps[0], q, x, y, a, b, dx);
    AreaSum(a, b, e1, e2, e3, e4, t1, t2, t3, t4);
  }

  lemma GapValue(toPoint: real, area: real, w: real, h: real, a: real, b: real,
                 t1: real, t2: real, t3: real, t4: real, ey: real, ex: real)
    requires w == 2.0 * a && h == 2.0 * b
    requires toPoint == a * t1 + a * t2 + b * t3 + b * t4 && area == 4.0 * a * b
    requires a * t1 + a * t2 == 2.0 * a * b + 2.0 * a * ey && b * t3 + b * t4 == 2.0 * b * a + 2.0 * b * ex
    requires a * ey >= 0.0 && b * ex >= 0.0
    ensures Abs(toPoint - area) == w * ey + h * ex
  {
  }

  lemma AreaSum(a: real, b: real, e1: real, e2: real, e3: real, e4: real, t1: real, t2: real, t3: real, t4: real)
    requires a >= 0.0 && b >= 0.0 && t1 >= 0.0 && t2 >= 0.0 && t3 >= 0.0 && t4 >= 0.0
    requires e1 == 2.0 * a * t1 && e2 == 2.0 * b * t3 && e3 == 2.0 * a * t2 && e4 == 2.0 * b * t4
    ensures Abs((e1 + e2 + e3 + e4) / 2.0) == a * t1 + a * t2 + b * t3 + b * t4
  {
    assert a * t1 >= 0.0 && a * t2 >= 0.0 && b * t3 >= 0.0 && b * t4 >= 0.0;
  }

  /** Scaling t1 + t2 = 2b + 2e by a nonnegative a. */
  lemma ScaleSum(a: real, t1: real, t2: real, b: real, e: real)
    requires a >= 0.0 && e >= 0.0 && t1 + t2 == 2.0 * b + 2.0 * e
    ensures a * t1 + a * t2 == 2.0 * a * b + 2.0 * a * e
    ensures a * e >= 0.0
  {
    assert a * (t1 + t2) == a * (2.0 * b + 2.0 * e);
  }

  lemma ShoelaceOfBox(ps: seq<Position>, x: real, y: real, a: real, b: real)
    requires |ps| == 4 && a >= 0.0 && b >= 0.0
    requires ps[0].x == x - a && ps[0].y == y - b && ps[1].x == x + a && ps[1].y == y - b
    requires ps[2].x == x + a && ps[2].y == y + b && ps[3].x == x - a && ps[3].y == y + b
    ensures QuadArea(ps) == 4.0 * a * b
  {
    assert Cross(ps[0], ps[1]) == 2.0 * a * (b - y);
    assert Cross(ps[1], ps[2]) == 2.0 * b * (x + a);
    assert Cross(ps[2], ps[3]) == 2.0 * a * (y + b);
    assert Cross(ps[3], ps[0]) == 2.0 * b * (a - x);
    assert a * b >= 0.0;
  }

  lemma EdgeTop(u: Position, v: Position, q: Position, x: real, y: real, a: real, b: real, d: real)
    requires d == q.y - y && a >= 0.0 && u.x == x - a && u.y == y - b && v.x == x + a && v.y == y - b
    ensures EdgeToPoint(u, v, q) == 2.0 * a * Abs(b + d)
  {
    assert (u.x - q.x) * (v.y - u.y) - (u.x - v.x) * (q.y - u.y) == 2.0 * a * (b + d);
    MulSign(2.0 * a, b + d);
  }

  lemma EdgeRight(u: Position, v: Position, q: Position, x: real, y: real, a: real, b: real, d: real)
    requires d == q.x - x && b >= 0.0 && u.x == x + a && u.y == y - b && v.x == x + a && v.y == y + b
    ensures EdgeToPoint(u, v, q) == 2.0 * b * Abs(a - d)
  {
    assert (u.x - q.x) * (v.y - u.y) - (u.x - v.x) * (q.y - u.y) == 2.0 * b * (a - d);
    MulSign(2.0 * b, a - d);
  }

  lemma EdgeBottom(u: Position, v: Position, q: Position, x: real, y: real, a: real, b: real, d: real)
    requires d == q.y - y && a >= 0.0 && u.x == x + a && u.y == y + b && v.x == x - a && v.y == y + b
    ensures EdgeToPoint(u, v, q) == 2.0 * a * Abs(b - d)
  {
    assert (u.x - q.x) * (v.y - u.y) - (u.x - v.x) * (q.y - u.y) == 2.0 * a * (b - d);
    MulSign(2.0 * a, b - d);
  }

  lemma EdgeLeft(u: Position, v: Position, q: Position, x: real, y: real, a: real, b: real, d: real)
    requires d == q.x - x && b >= 0.0 && u.x == x - a && u.y == y + b && v.x == x - a && v.y == y - b
    ensures EdgeToPoint(u, v, q) == 2.0 * b * Abs(a + d)
  {
    assert (u.x - q.x) * (v.y - u.y) - (u.x - v.x) * (q.y - u.y) == 2.0 * b * (a + d);
    MulSign(2.0 * b, a + d);
  }

  lemma MulSign(k: real, v: real)
    requires k >= 0.0
    ensures Abs(k * v) == k * Abs(v)
  {
    if v < 0.0 {
      assert k * v == -(k * (-v));
      assert k * (-v) >= 0.0;
    } else {
      assert k * v >= 0.0;
    }
  }

  /** Every point of the box, its centre included, hits the player. */
  lemma InsideBoxCollides(p: Player, q: Position, now: int)
    requires p.width >= 0.0 && p.height >= 0.0
    requires Abs(q.x - p.position.x) <= p.width / 2.0 && Abs(q.y - p.position.y) <= p.height / 2.0
    ensures CollidePoint(p, q, now)
  {
    CollidePointMeans(p, q, now);
  }

  /** For a box at least 1 wide and high, a point 1 or more beyond an edge misses. */
  lemma FarPointMisses(p: Player, q: Position, now: int)
    requires p.width >= 1.0 && p.height >= 1.0
    requires Abs(q.x - p.position.x) >= p.width / 2.0 + 1.0 || Abs(q.y - p.position.y) >= p.height / 2.0 + 1.0
    ensures !CollidePoint(p, q, now)
  {
    CollidePointMeans(p, q, now);
    var ey, ex := Excess(Abs(q.y - p.position.y), p.height / 2.0), Excess(Abs(q.x - p.position.x), p.width / 2.0);
    assert ey >= 0.0 && ex >= 0.0;
    MulLe(0.0, ey, p.width);
    MulLe(0.0, ex, p.height);
    if ex >= 1.0 {
      MulLe(1.0, ex, p.height);
    } else {
      MulLe(1.0, ey, p.width);
    }
  }

  // ---------------------------------------------------------------------------
  // Weapon charges

  /** usedProjectile: spend one charge; at zero or below the player falls back to bullets. */
  function UsedProjectile(p: Player): (r: Player)
    ensures r == p.(weapon := r.weapon, uses := r.uses)
    ensures r.uses >= 0
    ensures p.uses > 1 ==> r.weapon == p.weapon && r.uses == p.uses - 1
    ensures p.uses <= 1 ==> r.weapon == Bullet && r.uses == 0
  {
    var spent := p.uses - 1;
    if spent <= 0 then p.(weapon := Bullet, uses := 0) else p.(uses := spent)
  }

  /** The player after `k` shots. */
  function Shots(p: Player, k: nat): Player
    decreases k
  {
    if k == 0 then p else Shots(UsedProjectile(p), k - 1)
  }

  /** A weapon picked up with n charges fires exactly n times before the player is back on
      bullets with no charges left. */
  lemma {:induction false} ChargesLast(p: Player, k: nat)
    requires p.uses >= 1
    ensures k < p.uses ==> Shots(p, k).weapon == p.weapon && Shots(p, k).uses == p.uses - k
    ensures k >= p.uses ==> Shots(p, k).weapon == Bullet && Shots(p, k).uses == 0
    ensures Shots(p, k) == p.(weapon := Shots(p, k).weapon, uses := Shots(p, k).uses)
    decreases k
  {
    if k > 0 {
      var q := UsedProjectile(p);
      if q.uses >= 1 {
        ChargesLast(q, k - 1);
      } else {
        BulletsStay(q, k - 1);
      }
    }
  }

  /** Once on bullets with no charges, firing changes nothing. */
  lemma {:induction false} BulletsStay(p: Player, k: nat)
    requires p.weapon == Bullet && p.uses == 0
    ensures Shots(p, k) == p
    decreases k
  {
    if k > 0 {
      assert UsedProjectile(p) == p;
      BulletsStay(p, k - 1);
    }
  }

  // ---------------------------------------------------------------------------
  // Movement against walls

  /** The eight probe points around the target, CORRECTION away from it. */
  datatype Probes = Probes(
    topLeft: Position, topRight: Position, bottomLeft: Position, bottomRight: Position,
    topMiddle: Position, bottomMiddle: Position, leftMiddle: Position, rightMiddle: Position)

  function Correction(p: Player): real
  {
    p.width / 2.0 + 5.0
  }

  /** The probes as fresh positions stamped `now`. */
  function MakeProbes(target: Position, c: real, now: int): (r: Probes)
    ensures r.topLeft.x == r.leftMiddle.x == r.bottomLeft.x == target.x - c
    ensures r.topRight.x == r.rightMiddle.x == r.bottomRight.x == target.x + c
    ensures r.topLeft.y == r.topMiddle.y == r.topRight.y == target.y - c
    ensures r.bottomLeft.y == r.bottomMiddle.y == r.bottomRight.y == target.y + c
    ensures r.topMiddle.x == r.bottomMiddle.x == target.x && r.leftMiddle.y == r.rightMiddle.y == target.y
  {
    Probes(
      NewPosition(target.x - c, target.y - c, now), NewPosition(target.x + c, target.y - c, now),
      NewPosition(target.x - c, target.y + c, now), NewPosition(target.x + c, target.y + c, now),
      NewPosition(target.x, target.y - c, now), NewPosition(target.x, target.y + c, now),
      NewPosition(target.x - c, target.y, now), NewPosition(target.x + c, target.y, now))
  }

  function Hit(wm: WallManager, a: Position, b: Position): bool
  {
    CheckLineCollision(wm.walls, a, b)
  }

  /** The probe segments for each direction: three from the current position and the far edge. */
  function UpSegments(from: Position, pr: Probes): seq<(Position, Position)>
  {
    [(from, pr.topLeft), (from, pr.topMiddle), (from, pr.topRight), (pr.topLeft, pr.topRight)]
  }

  function DownSegments(from: Position, pr: Probes): seq<(Position, Position)>
  {
    [(from, pr.bottomLeft), (from, pr.bottomMiddle), (from, pr.bottomRight), (pr.bottomLeft, pr.bottomRight)]
  }

  function RightSegments(from: Position, pr: Probes): seq<(Position, Position)>
  {
    [(from, pr.topRight), (from, pr.rightMiddle), (from, pr.bottomRight), (pr.topRight, pr.bottomRight)]
  }

  function LeftSegments(from: Position, pr: Probes): seq<(Position, Position)>
  {
    [(from, pr.topLeft), (from, pr.leftMiddle), (from, pr.bottomLeft), (pr.topLeft, pr.bottomLeft)]
  }

  /** Some segment of the list collides with a wall. */
  predicate AnyHit(wm: WallManager, segs: seq<(Position, Position)>)
  {
    exists k :: 0 <= k < |segs| && Hit(wm, segs[k].0, segs[k].1)
  }

  /** The move is blocked along the direction whose probe segments are `segs`. */
  predicate Blocked(wm: WallManager, moving: bool, segs: seq<(Position, Position)>)
  {
    moving && AnyHit(wm, segs)
  }

  /** updatePosition: move to the target, but on each axis where the move goes towards a wall
      (one of that direction's probe segments collides) keep the current coordinate. */
  function UpdatePosition(p: Player, wm: WallManager, target: Position, now: int): (r: Player)
    ensures r == p.(position := r.position)
    ensures r.position.lastUpdated == now
    ensures r.position.x == target.x || r.position.x == p.position.x
    ensures r.position.y == target.y || r.position.y == p.position.y
  {
    var pr := MakeProbes(target, Correction(p), now);
    var cur := p.position;
    var newY :=
      if Blocked(wm, target.y < cur.y, UpSegments(cur, pr)) || Blocked(wm, target.y > cur.y, DownSegments(cur, pr))
      then cur.y else target.y;
    var newX :=
      if Blocked(wm, target.x > cur.x, RightSegments(cur, pr)) || Blocked(wm, target.x < cur.x, LeftSegments(cur, pr))
      then cur.x else target.x;
    p.(position := MoveTo(p.position, newX, newY, now))
  }

  /** The y coordinate stays put exactly when the move goes up into a wall or down into one;
      otherwise it is the target's. Only the probes in the direction of motion matter. */
  lemma VerticalResolution(p: Player, wm: WallManager, target: Position, now: int)
    ensures var pr, cur := MakeProbes(target, Correction(p), now), p.position;
      var r := UpdatePosition(p, wm, target, now);
      target.y != cur.y ==>
        (r.position.y == cur.y <==>
          (target.y < cur.y && AnyHit(wm, UpSegments(cur, pr))) || (target.y > cur.y && AnyHit(wm, DownSegments(cur, pr))))
    ensures var pr, cur := MakeProbes(target, Correction(p), now), p.position;
      var r := UpdatePosition(p, wm, target, now);
      && (target.y < cur.y && !AnyHit(wm, UpSegments(cur, pr)) ==> r.position.y == target.y)
      && (target.y > cur.y && !AnyHit(wm, DownSegments(cur, pr)) ==> r.position.y == target.y)
      && (target.y == cur.y ==> r.position.y == target.y)
  {
  }

  /** The x coordinate likewise, with the right and left probes. */
  lemma HorizontalResolution(p: Player, wm: WallManager, target: Position, now: int)
    ensures var pr, cur := MakeProbes(target, Correction(p), now), p.position;
      var r := UpdatePosition(p, wm, target, now);
      target.x != cur.x ==>
        (r.position.x == cur.x <==>
          (target.x > cur.x && AnyHit(wm, RightSegments(cur, pr))) || (target.x < cur.x && AnyHit(wm, LeftSegments(cur, pr))))
    ensures var pr, cur := MakeProbes(target, Correction(p), now), p.position;
      var r := UpdatePosition(p, wm, target, now);
      && (target.x > cur.x && !AnyHit(wm, RightSegments(cur, pr)) ==> r.position.x == target.x)
      && (target.x < cur.x && !AnyHit(wm, LeftSegments(cur, pr)) ==> r.position.x == target.x)
      && (target.x == cur.x ==> r.position.x == target.x)
  {
  }

  /** Each coordinate of the result depends only on its own axis's probes: two wall sets that agree on the
      horizontal probe segments give the same x, and two that agree on the vertical ones give the same y. */
  lemma AxesIndependent(p: Player, wm1: WallManager, wm2: WallManager, target: Position, now: int)
    ensures var pr := MakeProbes(target, Correction(p), now);
      (&& AnyHit(wm1, RightSegments(p.position, pr)) == AnyHit(wm2, RightSegments(p.position, pr))
       && AnyHit(wm1, LeftSegments(p.position, pr)) == AnyHit(wm2, LeftSegments(p.position, pr)))
      ==> UpdatePosition(p, wm1, target, now).position.x == UpdatePosition(p, wm2, target, now).position.x
    ensures var pr := MakeProbes(target, Correction(p), now);
      (&& AnyHit(wm1, UpSegments(p.position, pr)) == AnyHit(wm2, UpSegments(p.position, pr))
       && AnyHit(wm1, DownSegments(p.position, pr)) == AnyHit(wm2, DownSegments(p.position, pr)))
      ==> UpdatePosition(p, wm1, target, now).position.y == UpdatePosition(p, wm2, target, now).position.y
  {
  }

  /** When no wall meets any probe segment, the player lands exactly on the target. */
  lemma ClearMoveReachesTarget(p: Player, wm: WallManager, target: Position, now: int)
    requires var pr := MakeProbes(target, Correction(p), now);
      var segs := UpSegments(p.position, pr) + DownSegments(p.position, pr)
        + RightSegments(p.position, pr) + LeftSegments(p.position, pr);
      forall k, w :: 0 <= k < |segs| && 0 <= w < |wm.walls| ==> !SegmentsMeet(segs[k].0, segs[k].1, wm.walls[w])
    ensures UpdatePosition(p, wm, target, now).position.x == target.x
    ensures UpdatePosition(p, wm, target, now).position.y == target.y
  {
    var pr := MakeProbes(target, Correction(p), now);
    var segs := UpSegments(p.position, pr) + DownSegments(p.position, pr)
      + RightSegments(p.position, pr) + LeftSegments(p.position, pr);
    forall k | 0 <= k < |segs|
      ensures !Hit(wm, segs[k].0, segs[k].1)
    {
      CollisionMeans(wm, segs[k].0, segs[k].1);
    }
    assert forall k :: 0 <= k < 4 ==> UpSegments(p.position, pr)[k] == segs[k];
    assert forall k :: 0 <= k < 4 ==> DownSegments(p.position, pr)[k] == segs[4 + k];
    assert forall k :: 0 <= k < 4 ==> RightSegments(p.position, pr)[k] == segs[8 + k];
    assert forall k :: 0 <= k < 4 ==> LeftSegments(p.position, pr)[k] == segs[12 + k];
  }
}
