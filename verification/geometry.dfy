/** Positions with an update timestamp, velocities, and the arithmetic on them (position.js). */
module Geometry {

  /** A point in world coordinates, stamped with the time (ms) of its last change. */
  datatype Position = Position(x: real, y: real, lastUpdated: int)

  /** A 2-D velocity vector in units per second. */
  datatype Velocity = Velocity(x: real, y: real)

  /** The wire form of a position. */
  datatype CondensedPosition = CondensedPosition(x: real, y: real, lastUpdated: int)

  /** `new Position(x, y)` at time `now`. */
  function NewPosition(x: real, y: real, now: int): Position
  {
    Position(x, y, now)
  }

  /** moveTo: place the point at (x, y) and stamp `now`. */
  function MoveTo(p: Position, x: real, y: real, now: int): (r: Position)
    ensures r.x == x && r.y == y && r.lastUpdated == now
  {
    p.(x := x, y := y, lastUpdated := now)
  }

  /** moveBy: translate by (dx, dy) and stamp `now`. */
  function MoveBy(p: Position, dx: real, dy: real, now: int): (r: Position)
    ensures r.x - p.x == dx && r.y - p.y == dy && r.lastUpdated == now
  {
    p.(x := p.x + dx, y := p.y + dy, lastUpdated := now)
  }

  /** moveByVelocity: translate by one whole velocity vector and stamp `now`. */
  function MoveByVelocity(p: Position, v: Velocity, now: int): (r: Position)
    ensures r == MoveBy(p, v.x, v.y, now)
  {
    p.(x := p.x + v.x, y := p.y + v.y, lastUpdated := now)
  }

  /** The elapsed time since the last update, in seconds. */
  function Seconds(p: Position, now: int): real
  {
    (now - p.lastUpdated) as real / 1000.0
  }

  /** updateByVelocity: integrate the velocity over the time since the last update and stamp `now`. */
  function UpdateByVelocity(p: Position, v: Velocity, now: int): (r: Position)
    ensures r.lastUpdated == now
    ensures r.x - p.x == v.x * Seconds(p, now) && r.y - p.y == v.y * Seconds(p, now)
  {
    p.(x := p.x + v.x * Seconds(p, now), y := p.y + v.y * Seconds(p, now), lastUpdated := now)
  }

  /** timeSinceLastUpdate, in ms. */
  function TimeSinceLastUpdate(p: Position, now: int): (r: int)
    ensures p.lastUpdated + r == now
  {
    now - p.lastUpdated
  }

  /** The quantity under the square root of distanceTo. */
  function DistSq(a: Position, b: Position): real
  {
    (a.x - b.x) * (a.x - b.x) + (a.y - b.y) * (a.y - b.y)
  }

  /** copy: a new position at the same point that keeps the original's timestamp. */
  function Copy(p: Position, now: int): (r: Position)
    ensures r == p
  {
    NewPosition(p.x, p.y, now).(lastUpdated := p.lastUpdated)
  }

  function GetCondensed(p: Position): CondensedPosition
  {
    CondensedPosition(p.x, p.y, p.lastUpdated)
  }

  /** fromCondensed: the constructor ignores the sent timestamp and stamps `now`. */
  function FromCondensed(c: CondensedPosition, now: int): (r: Position)
    ensures r.x == c.x && r.y == c.y && r.lastUpdated == now
  {
    NewPosition(c.x, c.y, now)
  }

  /** Velocity.add: componentwise sum. */
  function AddVelocity(a: Velocity, b: Velocity): (r: Velocity)
    ensures r.x - a.x == b.x && r.y - a.y == b.y
  {
    Velocity(a.x + b.x, a.y + b.y)
  }

  /** A velocity of the given magnitude along a unit direction. */
  function Scale(unit: Velocity, k: real): Velocity
  {
    Velocity(unit.x * k, unit.y * k)
  }

  // ---------------------------------------------------------------------------
  // Properties

  /** moveTo forgets where the point was: only the target and the clock matter. */
  lemma MoveToForgetsOrigin(p: Position, q: Position, x: real, y: real, now: int)
    ensures MoveTo(p, x, y, now) == MoveTo(q, x, y, now)
    ensures MoveTo(MoveTo(p, x, y, now), x, y, now) == MoveTo(p, x, y, now)
  {
  }

  /** moveBy(dx, dy) then moveBy(-dx, -dy) restores the point. */
  lemma MoveByInverse(p: Position, dx: real, dy: real, t1: int, t2: int)
    ensures var q := MoveBy(MoveBy(p, dx, dy, t1), -dx, -dy, t2);
            q.x == p.x && q.y == p.y && q.lastUpdated == t2
  {
  }

  /** Two moves by velocities equal one move by their sum (Velocity.add is the partner of moveByVelocity). */
  lemma MoveByVelocityAdd(p: Position, a: Velocity, b: Velocity, t1: int, t2: int)
    ensures MoveByVelocity(MoveByVelocity(p, a, t1), b, t2) == MoveByVelocity(p, AddVelocity(a, b), t2)
  {
  }

  /** A second updateByVelocity at the same instant integrates over zero time and leaves the point. */
  lemma UpdateByVelocityIdempotent(p: Position, v: Velocity, now: int)
    ensures UpdateByVelocity(UpdateByVelocity(p, v, now), v, now) == UpdateByVelocity(p, v, now)
    ensures TimeSinceLastUpdate(UpdateByVelocity(p, v, now), now) == 0
  {
  }

  /** Integrating up to t1 and then up to t2 is the same as integrating straight to t2. */
  lemma {:induction false} UpdateByVelocitySplit(p: Position, v: Velocity, t1: int, t2: int)
    ensures UpdateByVelocity(UpdateByVelocity(p, v, t1), v, t2) == UpdateByVelocity(p, v, t2)
  {
    var q := UpdateByVelocity(p, v, t1);
    var r, d := UpdateByVelocity(q, v, t2), UpdateByVelocity(p, v, t2);
    var a, b := Seconds(p, t1), Seconds(q, t2);
    SecondsAdd(p.lastUpdated, t1, t2);
    assert Seconds(p, t2) == a + b;
    SplitAxis(p.x, v.x, a, b);
    SplitAxis(p.y, v.y, a, b);
    assert r.x == d.x && r.y == d.y && r.lastUpdated == d.lastUpdated;
  }

  /** Elapsed seconds add up over consecutive stretches. */
  lemma SecondsAdd(t0: int, t1: int, t2: int)
    ensures (t2 - t0) as real / 1000.0 == (t1 - t0) as real / 1000.0 + (t2 - t1) as real / 1000.0
  {
  }

  /** One axis of the split: two steps of constant speed add up to one. */
  lemma SplitAxis(x0: real, vx: real, a: real, b: real)
    ensures (x0 + vx * a) + vx * b == x0 + vx * (a + b)
  {
  }

  /** Squared distance is symmetric and zero from a point to itself. */
  lemma DistSqSymmetric(a: Position, b: Position)
    ensures DistSq(a, b) == DistSq(b, a)
    ensures DistSq(a, a) == 0.0
  {
    assert (a.x - b.x) * (a.x - b.x) == (b.x - a.x) * (b.x - a.x);
    assert (a.y - b.y) * (a.y - b.y) == (b.y - a.y) * (b.y - a.y);
  }

  /** fromCondensed(getCondensed(p)) keeps the point but not the timestamp. */
  lemma CondensedRoundTrip(p: Position, c: CondensedPosition, now: int)
    ensures FromCondensed(GetCondensed(p), now) == p.(lastUpdated := now)
    ensures GetCondensed(FromCondensed(c, now)) == c.(lastUpdated := now)
  {
  }

  // ---------------------------------------------------------------------------
  // Real arithmetic steps

  lemma MulLe(a: real, b: real, c: real)
    requires a <= b && c >= 0.0
    ensures a * c <= b * c
  {
    assert (b - a) * c >= 0.0;
  }

  lemma MulLt(a: real, b: real, c: real)
    requires a < b && c > 0.0
    ensures a * c < b * c
  {
    assert (b - a) * c > 0.0;
  }
}
