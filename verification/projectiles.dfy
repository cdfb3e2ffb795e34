/** Projectiles, the update each kind runs once per tick, the list they live in, and power-ups
    (projectiles.js). */
module Projectiles {
  import opened Wrappers
  import opened Geometry
  import opened Grid
  import opened Graph
  import opened MazeMap
  import opened Players

  /** Who a projectile belongs to: the player who fired it, or the projectile that split into it. */
  datatype Owner = PlayerOwner(player: nat) | ProjectileOwner(projectile: nat)

  /** A velocity in polar form: heading in degrees and speed in units per second. */
  datatype Motion = Motion(heading: real, speed: real)

  /** The trigonometry and the wall bounce, which the model takes as given: cosine and sine of an angle in
      degrees, the angle from one point towards another, and the reflection off a cell boundary
      (scale, position before the move, position after it, velocity) -> (position, velocity). */
  datatype Physics = Physics(
    cos: real -> real,
    sin: real -> real,
    angleTo: (Position, Position) -> real,
    bounce: (nat, Position, Position, Motion) -> (Position, Motion))

  /** The class of a projectile, with the state only that class keeps. */
  datatype Kind =
    | Plain
    | Beam
    | Burster
    | Homing(target: Option<nat>, lastLock: int, goToNew: bool, lastNode: Option<Cell>)
    | LandMine(timeTriggered: Option<int>)

  /** A projectile. `speed` is the class's nominal speed; `motion` is the velocity it actually has. Ids are
      unique within a round (the original draws random strings). */
  datatype Projectile = Projectile(
    id: nat,
    kind: Kind,
    owner: Owner,
    position: Position,
    motion: Motion,
    collision: bool,
    damage: bool,
    lifeTime: int,
    timeFired: int,
    width: real,
    height: real,
    speed: real)

  // ---------------------------------------------------------------------------
  // Velocity helpers (position.js)

  /** The Cartesian vector of a polar velocity (fromAngle). */
  function Cartesian(phys: Physics, m: Motion): (v: Velocity)
    ensures v.x == m.speed * phys.cos(m.heading) && v.y == m.speed * phys.sin(m.heading)
  {
    Velocity(m.speed * phys.cos(m.heading), m.speed * phys.sin(m.heading))
  }

  /** getAngle: the heading, except that atan2(0, 0) makes a standing velocity point at angle 0. */
  function HeadingOf(m: Motion): (a: real)
    ensures m.speed != 0.0 ==> a == m.heading
    ensures m.speed == 0.0 ==> a == 0.0
  {
    if m.speed == 0.0 then 0.0 else m.heading
  }

  /** setSpeed: keep the direction, replace the magnitude. */
  function SetSpeed(m: Motion, s: real): (r: Motion)
    ensures r.speed == s && r.heading == HeadingOf(m)
  {
    Motion(HeadingOf(m), s)
  }

  /** setSpeed rescales the Cartesian vector: a moving velocity is multiplied by s / speed, and a standing one,
      whose getAngle is atan2(0, 0) = 0, becomes s along angle 0. */
  lemma SetSpeedRescales(phys: Physics, m: Motion, s: real)
    ensures m.speed != 0.0 ==>
      && Cartesian(phys, SetSpeed(m, s)).x == (s / m.speed) * Cartesian(phys, m).x
      && Cartesian(phys, SetSpeed(m, s)).y == (s / m.speed) * Cartesian(phys, m).y
    ensures m.speed == 0.0 ==> Cartesian(phys, SetSpeed(m, s)) == Velocity(s * phys.cos(0.0), s * phys.sin(0.0))
  {
  }

  /** setAngle: keep the magnitude, replace the direction. */
  function SetAngle(m: Motion, a: real): (r: Motion)
    ensures r.heading == a && r.speed >= 0.0
    ensures r.speed == m.speed || r.speed == -m.speed
  {
    Motion(a, Abs(m.speed))
  }

  // ---------------------------------------------------------------------------
  // Construction

  /** The base constructor: only the direction of the given velocity is kept, at speed 135; the projectile is
      fired `now` and lives 15 s. */
  function NewPlain(id: nat, position: Position, direction: Motion, owner: Owner, now: int): (r: Projectile)
    ensures r.kind == Plain && r.id == id && r.owner == owner && r.position == position
    ensures r.motion == Motion(HeadingOf(direction), 135.0) && r.speed == 135.0
    ensures r.collision && r.damage && r.lifeTime == 15000 && r.timeFired == now
    ensures r.width == 10.0 && r.height == 10.0
  {
    Projectile(id, Plain, owner, position, Motion(HeadingOf(direction), 135.0), true, true, 15000, now, 10.0, 10.0,
      135.0)
  }

  /** `new player.projectileType(position, velocity, owner)`: the constructor of the weapon's class. */
  function Fire(w: Weapon, id: nat, position: Position, direction: Motion, owner: Owner, now: int): (r: Projectile)
    ensures r.id == id && r.owner == owner && r.position == position && r.timeFired == now
    ensures r.motion.heading == HeadingOf(direction) && r.collision
    ensures w != Mine ==> r.motion.speed == r.speed && r.damage
    ensures w == Bullet ==> r.kind == Plain && r.speed == 135.0 && r.lifeTime == 15000 && r.width == 10.0
    ensures w == Laser ==> r.kind == Beam && r.speed == 1500.0 && r.lifeTime == 1000 && r.width == 5.0
    ensures w == AirBurst ==> r.kind == Burster && r.speed == 150.0 && r.lifeTime == 4000 && r.width == 10.0
    ensures w == Rocket ==>
      r.kind == Homing(None, now, false, None) && r.speed == 110.0 && r.lifeTime == 15000 && r.width == 15.0
    ensures w == Mine ==>
      r.kind == LandMine(None) && r.speed == 200.0 && r.lifeTime == 15000 && r.width == 20.0
      && !r.damage && r.motion.speed == 135.0
    ensures r.height == r.width
  {
    var b := NewPlain(id, position, direction, owner, now);
    match w
    case Bullet => b
    case Laser =>
      b.(kind := Beam, width := 5.0, height := 5.0, speed := 1500.0, lifeTime := 1000,
        motion := SetSpeed(b.motion, 1500.0))
    case AirBurst =>
      b.(kind := Burster, speed := 150.0, lifeTime := 1500 + 2500, motion := SetSpeed(b.motion, 150.0))
    case Rocket =>
      b.(kind := Homing(None, now, false, None), speed := 110.0, width := 15.0, height := 15.0,
        motion := SetSpeed(b.motion, 110.0))
    case Mine =>
      b.(kind := LandMine(None), width := 20.0, height := 20.0, speed := 200.0, damage := false)
  }

  /** A fragment: a plain projectile of size 5 that belongs to the projectile it split from, with its own heading,
      speed and lifetime. */
  function Child(id: nat, parent: Projectile, heading: real, speed: real, lifeTime: int, now: int): (r: Projectile)
    ensures r.id == id && r.kind == Plain && r.owner == ProjectileOwner(parent.id) && r.position == parent.position
    ensures r.motion == Motion(heading, speed) && r.lifeTime == lifeTime && r.timeFired == now
    ensures r.damage && r.width == 5.0 && r.height == 5.0
  {
    var b := NewPlain(id, parent.position, Motion(heading, 135.0), ProjectileOwner(parent.id), now);
    b.(width := 5.0, height := 5.0, lifeTime := lifeTime, motion := SetSpeed(b.motion, speed))
  }

  // ---------------------------------------------------------------------------
  // The round's projectile list

  /** indexOf: the first position holding the projectile, or -1. */
  function IndexOf(s: seq<Projectile>, id: nat): (r: int)
    ensures -1 <= r < |s|
    ensures r >= 0 ==> s[r].id == id && forall k :: 0 <= k < r ==> s[k].id != id
    ensures r == -1 <==> forall k :: 0 <= k < |s| ==> s[k].id != id
  {
    if s == [] then -1
    else if s[0].id == id then 0
    else
      var k := IndexOf(s[1..], id);
      if k == -1 then -1 else k + 1
  }

  /** Array.prototype.splice(start, 1): a negative start counts from the end. */
  function Splice1(s: seq<Projectile>, start: int): (r: seq<Projectile>)
    ensures 0 <= start < |s| ==> r == s[..start] + s[start + 1..]
    ensures start == -1 && |s| > 0 ==> r == s[..|s| - 1]
    ensures start >= |s| ==> r == s
  {
    var j := if start >= 0 then start else if |s| + start >= 0 then |s| + start else 0;
    if j < |s| then s[..j] + s[j + 1..] else s
  }

  /** How a projectile takes itself out of the list: as written, `splice(indexOf(this), 1)`, which removes the
      last element when the projectile is already gone; or corrected, which then leaves the list alone. */
  datatype Removal = AsWritten | Corrected

  /** The index the self-removal splices out, or -1 when it leaves the list alone. */
  function RemovedAt(pol: Removal, s: seq<Projectile>, id: nat): (x: int)
    ensures -1 <= x < |s|
    ensures IndexOf(s, id) >= 0 ==> x == IndexOf(s, id)
    ensures IndexOf(s, id) == -1 && pol == AsWritten && |s| > 0 ==> x == |s| - 1
    ensures IndexOf(s, id) == -1 && (pol == Corrected || |s| == 0) ==> x == -1
  {
    var k := IndexOf(s, id);
    if k >= 0 then k else if pol == AsWritten && |s| > 0 then |s| - 1 else -1
  }

  /** `splice(indexOf(this), 1)` under the chosen policy. */
  function RemoveSelf(pol: Removal, s: seq<Projectile>, id: nat): seq<Projectile>
  {
    var k := IndexOf(s, id);
    if pol == Corrected && k == -1 then s else Splice1(s, k)
  }

  /** A self-removal takes out the element at the removed index, if any, and keeps the rest in order. */
  lemma RemoveSelfDrops(pol: Removal, s: seq<Projectile>, id: nat)
    ensures var x := RemovedAt(pol, s, id);
      RemoveSelf(pol, s, id) == if x == -1 then s else s[..x] + s[x + 1..]
  {
  }

  /** `n` successive self-removals. */
  function RemoveN(pol: Removal, s: seq<Projectile>, id: nat, n: nat): (r: seq<Projectile>)
    decreases n
  {
    if n == 0 then s else RemoveN(pol, RemoveSelf(pol, s, id), id, n - 1)
  }

  /** The projectile's own mutations become visible through the list only while it is still in it. */
  function WriteBack(s: seq<Projectile>, p: Projectile): (r: seq<Projectile>)
    ensures |r| == |s|
    ensures forall k :: 0 <= k < |s| ==> r[k] == (if k == IndexOf(s, p.id) then p else s[k])
  {
    var k := IndexOf(s, p.id);
    if k == -1 then s else s[k := p]
  }

  /** No two projectiles of the list share an id. */
  predicate UniqueIds(s: seq<Projectile>)
  {
    forall j, k :: 0 <= j < k < |s| ==> s[j].id != s[k].id
  }

  /** Every id in the list is below n, so n and the ids after it are fresh. */
  predicate IdsBelow(s: seq<Projectile>, n: nat)
  {
    forall k :: 0 <= k < |s| ==> s[k].id < n
  }

  /** Taking one element out keeps ids unique. */
  lemma DropKeepsUnique(s: seq<Projectile>, x: nat)
    requires x < |s| && UniqueIds(s)
    ensures UniqueIds(s[..x] + s[x + 1..])
  {
    var d := s[..x] + s[x + 1..];
    assert forall k :: 0 <= k < |d| ==> d[k] == s[if k < x then k else k + 1];
  }

  /** Taking one element out keeps ids below any bound they were below. */
  lemma DropKeepsBelow(s: seq<Projectile>, x: nat, n: nat)
    requires x < |s| && IdsBelow(s, n)
    ensures IdsBelow(s[..x] + s[x + 1..], n)
  {
    var d := s[..x] + s[x + 1..];
    assert forall k :: 0 <= k < |d| ==> d[k] == s[if k < x then k else k + 1];
  }

  /** With unique ids, taking a projectile out leaves no projectile with its id. */
  lemma DropRemovesId(s: seq<Projectile>, x: nat)
    requires x < |s| && UniqueIds(s)
    ensures IndexOf(s[..x] + s[x + 1..], s[x].id) == -1
  {
    var d := s[..x] + s[x + 1..];
    assert forall k :: 0 <= k < |d| ==> d[k] == s[if k < x then k else k + 1];
  }

  /** No projectile of the list has the id. */
  predicate Lacks(s: seq<Projectile>, id: nat)
  {
    forall k :: 0 <= k < |s| ==> s[k].id != id
  }

  /** Taking one element out brings back no id that was missing. */
  lemma DropKeepsLacks(s: seq<Projectile>, x: nat, gone: nat)
    requires x < |s| && Lacks(s, gone)
    ensures Lacks(s[..x] + s[x + 1..], gone)
  {
    var d := s[..x] + s[x + 1..];
    assert forall k :: 0 <= k < |d| ==> d[k] == s[if k < x then k else k + 1];
  }

  /** One self-removal keeps ids unique. */
  lemma RemoveSelfKeepsUnique(pol: Removal, s: seq<Projectile>, id: nat)
    requires UniqueIds(s)
    ensures UniqueIds(RemoveSelf(pol, s, id))
  {
    RemoveSelfDrops(pol, s, id);
    var x := RemovedAt(pol, s, id);
    if x >= 0 {
      DropKeepsUnique(s, x);
    }
  }

  /** One self-removal keeps ids below any bound they were below. */
  lemma RemoveSelfKeepsBelow(pol: Removal, s: seq<Projectile>, id: nat, bound: nat)
    requires IdsBelow(s, bound)
    ensures IdsBelow(RemoveSelf(pol, s, id), bound)
  {
    RemoveSelfDrops(pol, s, id);
    var x := RemovedAt(pol, s, id);
    if x >= 0 {
      DropKeepsBelow(s, x, bound);
    }
  }

  /** A projectile that is gone stays gone after any self-removal. */
  lemma RemoveSelfKeepsLacks(pol: Removal, s: seq<Projectile>, id: nat, gone: nat)
    requires Lacks(s, gone)
    ensures Lacks(RemoveSelf(pol, s, id), gone)
  {
    RemoveSelfDrops(pol, s, id);
    var x := RemovedAt(pol, s, id);
    if x >= 0 {
      DropKeepsLacks(s, x, gone);
    }
  }

  lemma {:induction false} RemoveNKeepsUnique(pol: Removal, s: seq<Projectile>, id: nat, n: nat)
    requires UniqueIds(s)
    ensures UniqueIds(RemoveN(pol, s, id, n))
    decreases n
  {
    if n > 0 {
      var v, m := RemoveSelf(pol, s, id), n - 1;
      RemoveSelfKeepsUnique(pol, s, id);
      RemoveNKeepsUnique(pol, v, id, m);
    }
  }

  lemma {:induction false} RemoveNKeepsBelow(pol: Removal, s: seq<Projectile>, id: nat, n: nat, bound: nat)
    requires IdsBelow(s, bound)
    ensures IdsBelow(RemoveN(pol, s, id, n), bound)
    decreases n
  {
    if n > 0 {
      var v, m := RemoveSelf(pol, s, id), n - 1;
      RemoveSelfKeepsBelow(pol, s, id, bound);
      RemoveNKeepsBelow(pol, v, id, m, bound);
    }
  }

  lemma {:induction false} RemoveNKeepsLacks(pol: Removal, s: seq<Projectile>, id: nat, n: nat, gone: nat)
    requires Lacks(s, gone)
    ensures Lacks(RemoveN(pol, s, id, n), gone)
    decreases n
  {
    if n > 0 {
      var v, m := RemoveSelf(pol, s, id), n - 1;
      RemoveSelfKeepsLacks(pol, s, id, gone);
      RemoveNKeepsLacks(pol, v, id, m, gone);
    }
  }

  /** A projectile that is gone stays gone after any number of self-removals. */
  lemma RemoveNKeepsGone(pol: Removal, s: seq<Projectile>, id: nat, n: nat, gone: nat)
    requires IndexOf(s, gone) == -1
    ensures IndexOf(RemoveN(pol, s, id, n), gone) == -1
  {
    RemoveNKeepsLacks(pol, s, id, n, gone);
  }

  /** Any number of self-removals keeps ids unique and fresh, and a projectile that is gone stays gone. */
  lemma RemoveNKeepsIds(pol: Removal, s: seq<Projectile>, id: nat, n: nat, bound: nat)
    ensures UniqueIds(s) ==> UniqueIds(RemoveN(pol, s, id, n))
    ensures IdsBelow(s, bound) ==> IdsBelow(RemoveN(pol, s, id, n), bound)
    ensures IndexOf(s, id) == -1 ==> IndexOf(RemoveN(pol, s, id, n), id) == -1
  {
    if UniqueIds(s) {
      RemoveNKeepsUnique(pol, s, id, n);
    }
    if IdsBelow(s, bound) {
      RemoveNKeepsBelow(pol, s, id, n, bound);
    }
    if IndexOf(s, id) == -1 {
      RemoveNKeepsGone(pol, s, id, n, id);
    }
  }

  /** A present projectile removes exactly itself, under both policies. */
  lemma RemovePresent(pol: Removal, s: seq<Projectile>, k: nat)
    requires UniqueIds(s) && k < |s|
    ensures RemoveSelf(pol, s, s[k].id) == s[..k] + s[k + 1..]
    ensures IndexOf(s[..k] + s[k + 1..], s[k].id) == -1
  {
    RemoveSelfDrops(pol, s, s[k].id);
    assert IndexOf(s, s[k].id) == k;
    DropRemovesId(s, k);
  }

  /** As written, a projectile that is no longer in a non-empty list removes the last projectile instead,
      which belongs to somebody else. */
  lemma AsWrittenRemovesBystander(s: seq<Projectile>, id: nat)
    requires IndexOf(s, id) == -1 && |s| > 0
    ensures RemoveSelf(AsWritten, s, id) == s[..|s| - 1]
    ensures s[|s| - 1].id != id
  {
    RemoveSelfDrops(AsWritten, s, id);
  }

  /** Corrected, removals of a projectile that is already gone change nothing. */
  lemma {:induction false} CorrectedAbsentNoop(s: seq<Projectile>, id: nat, n: nat)
    requires IndexOf(s, id) == -1
    ensures RemoveN(Corrected, s, id, n) == s
    decreases n
  {
    if n > 0 {
      CorrectedAbsentNoop(s, id, n - 1);
    }
  }

  /** Corrected, any number (at least one) of self-removals takes out exactly the projectile. */
  lemma CorrectedRemovesOnlySelf(s: seq<Projectile>, k: nat, n: nat)
    requires UniqueIds(s) && k < |s| && n >= 1
    ensures RemoveN(Corrected, s, s[k].id, n) == s[..k] + s[k + 1..]
  {
    RemovePresent(Corrected, s, k);
    CorrectedAbsentNoop(s[..k] + s[k + 1..], s[k].id, n - 1);
  }

  /** As written, a second removal of a projectile takes out the last of the others as well. */
  lemma AsWrittenTwiceRemovesTwo(s: seq<Projectile>, k: nat)
    requires UniqueIds(s) && k < |s| && |s| >= 2
    ensures RemoveN(AsWritten, s, s[k].id, 2) == (s[..k] + s[k + 1..])[..|s| - 2]
  {
    RemovePresent(AsWritten, s, k);
    var t := s[..k] + s[k + 1..];
    assert RemoveN(AsWritten, t, s[k].id, 0) == t;
  }

  // ---------------------------------------------------------------------------
  // The update every projectile runs (Projectile.update)

  /** What one update produces before it is written back into the round: the updated projectile, the players,
      how many times the projectile spliced itself out of the list, and the projectiles it spawned. */
  datatype Step = Step(self: Projectile, players: seq<Player>, removals: nat, spawned: seq<Projectile>)

  /** The hit test at the projectile's new position: each living player whose hit box contains it dies, and
      each such hit splices the projectile once more (the loop does not stop at the first hit). */
  function HitPlayers(ps: seq<Player>, q: Position, now: int): (r: (seq<Player>, nat))
    ensures |r.0| == |ps| && r.1 <= |ps|
    ensures forall k :: 0 <= k < |ps| ==>
      r.0[k] == ps[k].(alive := ps[k].alive && !CollidePoint(ps[k], q, now))
    ensures r.1 == 0 <==> forall k :: 0 <= k < |ps| ==> !(ps[k].alive && CollidePoint(ps[k], q, now))
  {
    (seq(|ps|, k requires 0 <= k < |ps| => ps[k].(alive := ps[k].alive && !CollidePoint(ps[k], q, now))),
     HitCount(ps, q, now))
  }

  /** How many living players the point hits: none exactly when it misses every one of them. */
  function HitCount(ps: seq<Player>, q: Position, now: int): (r: nat)
    ensures r <= |ps|
    ensures r == 0 <==> forall k :: 0 <= k < |ps| ==> !(ps[k].alive && CollidePoint(ps[k], q, now))
    decreases |ps|
  {
    if ps == [] then 0
    else
      var rest := HitCount(ps[1..], q, now);
      assert forall k :: 1 <= k < |ps| ==> ps[1..][k - 1] == ps[k];
      rest + if ps[0].alive && CollidePoint(ps[0], q, now) then 1 else 0
  }

  /** The move stays inside one cell, or crosses into a cell connected to the old one. */
  predicate Through(m: Maze, before: Option<Cell>, after: Option<Cell>)
  {
    before.Some? && after.Some? && (before.value == after.value || after.value in Linked(m, before.value))
  }

  /** The projectile is past its lifetime. */
  predicate Expired(p: Projectile, now: int)
  {
    p.timeFired + p.lifeTime < now
  }

  /** Projectile.update: move by velocity, splice out once if expired, run the hit test if the projectile does
      damage, and bounce unless the move stayed in one cell or crossed an open passage. */
  function BaseUpdate(m: Maze, phys: Physics, ps: seq<Player>, p: Projectile, now: int): (r: Step)
    ensures r.spawned == [] && |r.players| == |ps|
    ensures r.self == p.(position := r.self.position, motion := r.self.motion)
    ensures var moved := UpdateByVelocity(p.position, Cartesian(phys, p.motion), now);
      Through(m, GetNodeFromPos(m, p.position), GetNodeFromPos(m, moved)) ==>
        r.self.position == moved && r.self.motion == p.motion
    ensures Expired(p, now) ==> r.removals >= 1
    ensures var moved := UpdateByVelocity(p.position, Cartesian(phys, p.motion), now);
      p.damage ==> forall k :: 0 <= k < |ps| ==>
        r.players[k] == ps[k].(alive := ps[k].alive && !CollidePoint(ps[k], moved, now))
    ensures !p.damage ==> r.players == ps
    ensures r.removals == 0 <==> !Expired(p, now) && (p.damage ==> forall k :: 0 <= k < |ps| ==>
      !(ps[k].alive && CollidePoint(ps[k], UpdateByVelocity(p.position, Cartesian(phys, p.motion), now), now)))
  {
    var before := GetNodeFromPos(m, p.position);
    var moved := UpdateByVelocity(p.position, Cartesian(phys, p.motion), now);
    var expiry: nat := if Expired(p, now) then 1 else 0;
    var hit := if p.damage then HitPlayers(ps, moved, now) else (ps, 0);
    var after := GetNodeFromPos(m, moved);
    var bounced := if Through(m, before, after) then (moved, p.motion)
      else phys.bounce(m.scale, p.position, moved, p.motion);
    Step(p.(position := bounced.0, motion := bounced.1), hit.0, expiry + hit.1, [])
  }

  /** Two living players hit by the same point make at least two hits. */
  lemma {:induction false} TwoHitsCount(ps: seq<Player>, q: Position, now: int, j: nat, k: nat)
    requires j < k < |ps|
    requires ps[j].alive && CollidePoint(ps[j], q, now) && ps[k].alive && CollidePoint(ps[k], q, now)
    ensures HitCount(ps, q, now) >= 2
    decreases |ps|
  {
    var t := ps[1..];
    assert t[k - 1] == ps[k];
    if j == 0 {
      assert HitCount(t, q, now) >= 1;
    } else {
      assert t[j - 1] == ps[j];
      TwoHitsCount(t, q, now, j - 1, k - 1);
    }
  }

  /** The update splices the projectile out once for expiring and once more for every living player it hits. */
  lemma BaseUpdateRemovals(m: Maze, phys: Physics, ps: seq<Player>, p: Projectile, now: int)
    ensures var moved := UpdateByVelocity(p.position, Cartesian(phys, p.motion), now);
      BaseUpdate(m, phys, ps, p, now).removals
      == (if Expired(p, now) then 1 else 0) + (if p.damage then HitCount(ps, moved, now) else 0)
  {
  }

  /** A damaging projectile whose new position lies in the boxes of two living players splices itself out at
      least twice. */
  lemma DoubleHitSplicesTwice(m: Maze, phys: Physics, ps: seq<Player>, p: Projectile, now: int, j: nat, k: nat)
    requires p.damage && j < k < |ps|
    requires var moved := UpdateByVelocity(p.position, Cartesian(phys, p.motion), now);
      ps[j].alive && CollidePoint(ps[j], moved, now) && ps[k].alive && CollidePoint(ps[k], moved, now)
    ensures BaseUpdate(m, phys, ps, p, now).removals >= 2
  {
    var moved := UpdateByVelocity(p.position, Cartesian(phys, p.motion), now);
    TwoHitsCount(ps, moved, now, j, k);
    BaseUpdateRemovals(m, phys, ps, p, now);
  }

  /** As written, a self-removal takes one projectile out of a non-empty list. */
  lemma AsWrittenSelfShrinks(s: seq<Projectile>, id: nat)
    ensures |RemoveSelf(AsWritten, s, id)| == if |s| > 0 then |s| - 1 else 0
  {
    RemoveSelfDrops(AsWritten, s, id);
  }

  /** As written, every self-removal takes one projectile out of a non-empty list, whoever it belongs to. */
  lemma {:induction false} AsWrittenShrinks(s: seq<Projectile>, id: nat, n: nat)
    ensures |RemoveN(AsWritten, s, id, n)| == if n <= |s| then |s| - n else 0
    decreases n
  {
    if n > 0 {
      var t, n' := RemoveSelf(AsWritten, s, id), n - 1;
      assert RemoveN(AsWritten, s, id, n) == RemoveN(AsWritten, t, id, n');
      AsWrittenSelfShrinks(s, id);
      AsWrittenShrinks(t, id, n');
    }
  }

  /** A double hit, as written, takes a second projectile out of the round's list along with the one that hit;
      corrected, only the projectile itself goes. */
  lemma DoubleHitRemovesBystander(m: Maze, phys: Physics, ps: seq<Player>, s: seq<Projectile>, i: nat, now: int,
    j: nat, k: nat)
    requires UniqueIds(s) && i < |s| && s[i].damage && j < k < |ps|
    requires var moved := UpdateByVelocity(s[i].position, Cartesian(phys, s[i].motion), now);
      ps[j].alive && CollidePoint(ps[j], moved, now) && ps[k].alive && CollidePoint(ps[k], moved, now)
    ensures var n := BaseUpdate(m, phys, ps, s[i], now).removals;
      |s| >= 2 ==> |RemoveN(AsWritten, s, s[i].id, n)| <= |s| - 2
    ensures var n := BaseUpdate(m, phys, ps, s[i], now).removals;
      RemoveN(Corrected, s, s[i].id, n) == s[..i] + s[i + 1..]
  {
    var n := BaseUpdate(m, phys, ps, s[i], now).removals;
    DoubleHitSplicesTwice(m, phys, ps, s[i], now, j, k);
    AsWrittenShrinks(s, s[i].id, n);
    CorrectedRemovesOnlySelf(s, i, n);
  }

  /** A projectile that stays clear of every living player and inside its lifetime never leaves the list. */
  lemma QuietUpdateKeepsProjectile(m: Maze, phys: Physics, ps: seq<Player>, p: Projectile, now: int)
    requires !Expired(p, now) && !p.damage
    ensures BaseUpdate(m, phys, ps, p, now).removals == 0
  {
  }

  // ---------------------------------------------------------------------------
  // AirBurst

  /** The offset of the k-th fragment from the shell's heading: five directions spread over 30 degrees. */
  function BurstOffset(k: nat): real
  {
    (30.0 / 4.0) * k as real - 30.0 / 2.0
  }

  /** The offsets are -15, -7.5, 0, 7.5 and 15 degrees. */
  lemma BurstFan()
    ensures BurstOffset(0) == -15.0 && BurstOffset(1) == -7.5 && BurstOffset(2) == 0.0
    ensures BurstOffset(3) == 7.5 && BurstOffset(4) == 15.0
  {
  }

  /** AirBurst.update after the base update: once 1.5 s have passed, and only while it still does damage, the
      shell goes inert and spawns five fragments. */
  function BurstStep(s: Step, now: int, nextId: nat): (r: Step)
    ensures r.players == s.players && r.removals == s.removals
    ensures var bursts := now - s.self.timeFired > 1500 && s.self.damage;
      && (bursts ==> |r.spawned| == |s.spawned| + 5 && !r.self.damage && !r.self.collision
                     && r.self.width == 0.0 && r.self.height == 0.0)
      && (!bursts ==> r == s)
    ensures now - s.self.timeFired > 1500 && s.self.damage ==>
      r.self == s.self.(damage := false, collision := false, width := 0.0, height := 0.0)
    ensures |r.spawned| >= |s.spawned| && r.spawned[..|s.spawned|] == s.spawned
    ensures forall k :: |s.spawned| <= k < |r.spawned| ==>
      var c := r.spawned[k]; var j := k - |s.spawned|;
      && c.id == nextId + j && c.owner == ProjectileOwner(s.self.id) && c.position == s.self.position
      && c.motion == Motion(HeadingOf(s.self.motion) + BurstOffset(j), 135.0)
      && c.lifeTime == 2500 && c.timeFired == now && c.kind == Plain
    ensures r.self.position == s.self.position && r.self.motion == s.self.motion && r.self.id == s.self.id
    ensures r.self.owner == s.self.owner
  {
    var p := s.self;
    if now - p.timeFired > 1500 && p.damage then
      var inert := p.(damage := false, collision := false, width := 0.0, height := 0.0);
      var fragments := seq(5, k requires 0 <= k < 5 =>
        Child(nextId + k, inert, HeadingOf(p.motion) + BurstOffset(k), 135.0, 2500, now));
      var r := Step(inert, s.players, s.removals, s.spawned + fragments);
      assert forall k :: |s.spawned| <= k < |r.spawned| ==> r.spawned[k] == fragments[k - |s.spawned|];
      r
    else s
  }

  /** A shell bursts at most once: after bursting it no longer does damage, so the next step spawns nothing. */
  lemma BurstOnce(s: Step, now: int, later: int, nextId: nat, id2: nat)
    ensures var r := BurstStep(s, now, nextId);
      BurstStep(Step(r.self, r.players, 0, []), later, id2).spawned == []
        || BurstStep(s, now, nextId) == s
  {
  }

  /** Every fragment flies within 15 degrees of the shell's heading. */
  lemma FragmentsWithinFan(s: Step, now: int, nextId: nat)
    ensures var r := BurstStep(s, now, nextId);
      forall k :: |s.spawned| <= k < |r.spawned| ==>
        HeadingOf(s.self.motion) - 15.0 <= r.spawned[k].motion.heading <= HeadingOf(s.self.motion) + 15.0
  {
    var r := BurstStep(s, now, nextId);
    forall k | |s.spawned| <= k < |r.spawned|
      ensures HeadingOf(s.self.motion) - 15.0 <= r.spawned[k].motion.heading <= HeadingOf(s.self.motion) + 15.0
    {
      var j := k - |s.spawned|;
      assert 0 <= j < 5;
    }
  }

  // ---------------------------------------------------------------------------
  // LandMine

  /** JavaScript truthiness of `timeTriggered`: null and 0 are both false. */
  predicate Truthy(t: Option<int>)
  {
    t.Some? && t.value != 0
  }

  /** Some living player stands closer than the explode distance (140). */
  predicate AnyNear(ps: seq<Player>, q: Position)
  {
    exists k :: 0 <= k < |ps| && ps[k].alive && DistSq(q, ps[k].position) < 140.0 * 140.0
  }

  /** The 24 shrapnel pieces, every 15 degrees from 0, at speed 359, living 0.3 s. */
  function Shrapnel(p: Projectile, nextId: nat, now: int): (r: seq<Projectile>)
    ensures |r| == 24
    ensures forall k :: 0 <= k < 24 ==>
      r[k] == Child(nextId + k, p, 15.0 * k as real, 359.0, 300, now)
    ensures forall k :: 0 <= k < 24 ==> r[k].owner == ProjectileOwner(p.id)
  {
    seq(24, k requires 0 <= k < 24 => Child(nextId + k, p, (360.0 / 24.0) * k as real, 359.0, 300, now))
  }

  /** The mine's speed while it slows down over the 1.5 s arm time, then stands still. */
  function MineSpeed(p: Projectile, now: int): real
  {
    if now < p.timeFired + 1500 then (1.0 - (now - p.timeFired) as real / 1500.0) * p.speed else 0.0
  }

  /** LandMine.update after the base update: slow down, arm after 1.5 s, latch the trigger time when a living
      player comes within 140, and explode 0.5 s after the trigger or once past its lifetime: splice itself out
      (once more) and spawn the shrapnel. */
  function MineStep(s: Step, now: int, nextId: nat): (r: Step)
    requires s.self.kind.LandMine?
    ensures r.self.kind.LandMine? && r.players == s.players
    ensures r.self == s.self.(motion := r.self.motion, damage := r.self.damage, kind := r.self.kind)
    ensures r.self.motion == SetSpeed(s.self.motion, MineSpeed(s.self, now))
    ensures r.self.damage <==> s.self.damage || now - s.self.timeFired > 1500
    ensures Truthy(s.self.kind.timeTriggered) ==> r.self.kind == s.self.kind
    ensures !(now - s.self.timeFired > 1500 && AnyNear(s.players, s.self.position)) ==> r.self.kind == s.self.kind
    ensures (now - s.self.timeFired > 1500 && AnyNear(s.players, s.self.position)
      && !Truthy(s.self.kind.timeTriggered)) ==> r.self.kind == LandMine(Some(now))
    ensures var t := r.self.kind.timeTriggered;
      var explodes := (Truthy(t) && now - t.value > 500) || s.self.lifeTime < now - s.self.timeFired;
      && (explodes ==> r.removals == s.removals + 1 && r.spawned == s.spawned + Shrapnel(r.self, nextId, now))
      && (!explodes ==> r.removals == s.removals && r.spawned == s.spawned)
    ensures |r.spawned| >= |s.spawned| && r.spawned[..|s.spawned|] == s.spawned
    ensures |r.spawned| <= |s.spawned| + 24
    ensures forall k :: |s.spawned| <= k < |r.spawned| ==>
      && r.spawned[k].id == nextId + (k - |s.spawned|) && r.spawned[k].kind == Plain
      && r.spawned[k].owner == ProjectileOwner(s.self.id)
  {
    var p := s.self;
    var armed := now - p.timeFired > 1500;
    var t := p.kind.timeTriggered;
    var t' := if armed && AnyNear(s.players, p.position) && !Truthy(t) then Some(now) else t;
    var p' := p.(motion := SetSpeed(p.motion, MineSpeed(p, now)), damage := p.damage || armed, kind := LandMine(t'));
    if (Truthy(t') && now - t'.value > 500) || p.lifeTime < now - p.timeFired then
      Step(p', s.players, s.removals + 1, s.spawned + Shrapnel(p', nextId, now))
    else Step(p', s.players, s.removals, s.spawned)
  }

  /** A mine that has not been triggered, is within its lifetime and has nobody alive within 140 stays untriggered
      and neither splices itself out nor throws shrapnel. */
  lemma MineWaitsAlone(s: Step, now: int, nextId: nat)
    requires s.self.kind.LandMine? && !Truthy(s.self.kind.timeTriggered)
    requires s.self.lifeTime >= now - s.self.timeFired && !AnyNear(s.players, s.self.position)
    ensures var r := MineStep(s, now, nextId);
      r.self.kind == s.self.kind && r.removals == s.removals && r.spawned == s.spawned
  {
  }

  /** While arming the mine's speed falls from its nominal 200 towards 0, and is never negative. */
  lemma MineSlowsDown(p: Projectile, now: int, later: int)
    requires p.speed >= 0.0 && p.timeFired <= now <= later
    ensures 0.0 <= MineSpeed(p, later) <= MineSpeed(p, now) <= p.speed
  {
    var a := (now - p.timeFired) as real / 1500.0;
    var b := (later - p.timeFired) as real / 1500.0;
    if later < p.timeFired + 1500 {
      RampOrder(a, b, p.speed);
    } else if now < p.timeFired + 1500 {
      RampOrder(a, a, p.speed);
    }
  }

  lemma RampOrder(a: real, b: real, s: real)
    requires 0.0 <= a <= b < 1.0 && s >= 0.0
    ensures 0.0 <= (1.0 - b) * s <= (1.0 - a) * s <= s
  {
    MulLe(1.0 - b, 1.0 - a, s);
    MulLe(1.0 - a, 1.0, s);
    MulLe(0.0, 1.0 - b, s);
  }

  /** A mine past its lifetime explodes in the very update whose base part already spliced it out for the same
      reason, so the update removes it twice. */
  lemma ExpiredMineSplicesTwice(m: Maze, phys: Physics, ps: seq<Player>, p: Projectile, now: int, nextId: nat)
    requires p.kind.LandMine? && Expired(p, now)
    ensures MineStep(BaseUpdate(m, phys, ps, p, now), now, nextId).removals >= 2
  {
  }

  // ---------------------------------------------------------------------------
  // Power-ups

  /** A power-up lying at a cell centre, granting a weapon. */
  datatype PowerUp = PowerUp(id: nat, position: Position, weapon: Weapon)

  /** The letter a power-up shows for its weapon. */
  function Letter(w: Weapon): char
  {
    match w
    case Bullet => 'B'
    case Rocket => 'R'
    case Laser => 'L'
    case AirBurst => 'A'
    case Mine => 'M'
  }

  /** ProjectileUses: the charges granted per letter; any other letter has none (undefined). */
  function ProjectileUses(c: char): Option<nat>
  {
    if c == 'B' then Some(0)
    else if c == 'R' then Some(1)
    else if c == 'L' then Some(3)
    else if c == 'A' then Some(10)
    else if c == 'M' then Some(5)
    else None
  }

  /** The charges a power-up of weapon w grants. */
  function Charges(w: Weapon): (n: nat)
    ensures ProjectileUses(Letter(w)) == Some(n)
    ensures n == 0 <==> w == Bullet
  {
    ProjectileUses(Letter(w)).value
  }

  /** Every weapon has its own letter, and exactly the five letters have an entry in the uses table. */
  lemma LettersDistinct(a: Weapon, b: Weapon, c: char)
    ensures Letter(a) == Letter(b) ==> a == b
    ensures ProjectileUses(c).Some? <==> exists w: Weapon :: Letter(w) == c
  {
    if ProjectileUses(c).Some? {
      var w := if c == 'B' then Bullet else if c == 'R' then Rocket else if c == 'L' then Laser
        else if c == 'A' then AirBurst else Mine;
      assert Letter(w) == c;
    }
  }

  /** Within the claim radius of 50. */
  predicate InClaim(pl: Player, q: Position)
  {
    DistSq(pl.position, q) < 50.0 * 50.0
  }

  /** The claimant search over players[k..], given the best of players[..k]: the nearest player inside the
      radius, an earlier one winning ties (the comparison is strict). */
  function ClosestFrom(ps: seq<Player>, q: Position, k: nat, best: Option<nat>): (r: Option<nat>)
    requires k <= |ps|
    requires best.Some? ==> best.value < k && InClaim(ps[best.value], q)
    requires best.Some? ==> forall j :: 0 <= j < k && InClaim(ps[j], q) ==>
      DistSq(ps[best.value].position, q) <= DistSq(ps[j].position, q)
    requires best.Some? ==> forall j :: 0 <= j < best.value && InClaim(ps[j], q) ==>
      DistSq(ps[best.value].position, q) < DistSq(ps[j].position, q)
    requires best.None? ==> forall j :: 0 <= j < k ==> !InClaim(ps[j], q)
    ensures r.Some? ==> r.value < |ps| && InClaim(ps[r.value], q)
    ensures r.Some? ==> forall j :: 0 <= j < |ps| && InClaim(ps[j], q) ==>
      DistSq(ps[r.value].position, q) <= DistSq(ps[j].position, q)
    ensures r.Some? ==> forall j :: 0 <= j < r.value && InClaim(ps[j], q) ==>
      DistSq(ps[r.value].position, q) < DistSq(ps[j].position, q)
    ensures r.None? ==> forall j :: 0 <= j < |ps| ==> !InClaim(ps[j], q)
    decreases |ps| - k
  {
    if k == |ps| then best
    else if !InClaim(ps[k], q) then ClosestFrom(ps, q, k + 1, best)
    else if best.None? || DistSq(ps[k].position, q) < DistSq(ps[best.value].position, q) then
      ClosestFrom(ps, q, k + 1, Some(k))
    else ClosestFrom(ps, q, k + 1, best)
  }

  /** The player who claims a power-up at q: the nearest one within 50, the first on ties, dead or alive. */
  function Claimant(ps: seq<Player>, q: Position): (r: Option<nat>)
    ensures r.Some? ==> r.value < |ps| && InClaim(ps[r.value], q)
    ensures r.Some? ==> forall j :: 0 <= j < |ps| && InClaim(ps[j], q) ==>
      DistSq(ps[r.value].position, q) <= DistSq(ps[j].position, q)
    ensures r.Some? ==> forall j :: 0 <= j < r.value && InClaim(ps[j], q) ==>
      DistSq(ps[r.value].position, q) < DistSq(ps[j].position, q)
    ensures r.None? <==> forall j :: 0 <= j < |ps| ==> !InClaim(ps[j], q)
  {
    ClosestFrom(ps, q, 0, None)
  }

  /** checkClaim for the power-up at index i: the claimant gets its weapon and charges and the power-up is
      spliced out; with nobody in range nothing changes. */
  function CheckClaim(ps: seq<Player>, pus: seq<PowerUp>, i: nat): (r: (seq<Player>, seq<PowerUp>))
    requires i < |pus|
    ensures |r.0| == |ps|
    ensures Claimant(ps, pus[i].position).None? ==> r == (ps, pus)
    ensures Claimant(ps, pus[i].position).Some? ==>
      var c := Claimant(ps, pus[i].position).value;
      && r.1 == pus[..i] + pus[i + 1..]
      && r.0[c] == ps[c].(weapon := pus[i].weapon, uses := Charges(pus[i].weapon))
      && forall j :: 0 <= j < |ps| && j != c ==> r.0[j] == ps[j]
  {
    match Claimant(ps, pus[i].position)
    case None => (ps, pus)
    case Some(c) =>
      (ps[c := ps[c].(weapon := pus[i].weapon, uses := Charges(pus[i].weapon))], pus[..i] + pus[i + 1..])
  }

  /** The claim loop over the live power-up list: a claimed power-up is spliced out and the loop index still
      advances, so the one after it waits for the next tick. */
  function ClaimAll(ps: seq<Player>, pus: seq<PowerUp>, i: nat): (r: (seq<Player>, seq<PowerUp>))
    ensures |r.0| == |ps| && |r.1| <= |pus|
    ensures forall k :: 0 <= k < |r.1| ==> r.1[k] in pus
    ensures forall k :: 0 <= k < |ps| ==>
      r.0[k] == ps[k].(weapon := r.0[k].weapon, uses := r.0[k].uses)
    decreases |pus| - i
  {
    if i >= |pus| then (ps, pus)
    else
      var c := CheckClaim(ps, pus, i);
      var r := ClaimAll(c.0, c.1, i + 1);
      assert forall k :: 0 <= k < |c.1| ==> c.1[k] in pus by {
        forall k | 0 <= k < |c.1|
          ensures c.1[k] in pus
        {
          if |c.1| < |pus| && k >= i {
            assert c.1[k] == pus[k + 1];
          } else if |c.1| < |pus| {
            assert c.1[k] == pus[k];
          }
        }
      }
      r
  }

  /** A power-up nobody stands near stays where it is. */
  lemma UnclaimedStays(ps: seq<Player>, pus: seq<PowerUp>, i: nat)
    requires i < |pus| && forall j :: 0 <= j < |ps| ==> !InClaim(ps[j], pus[i].position)
    ensures CheckClaim(ps, pus, i) == (ps, pus)
  {
  }

  /** randomPowerUp, with the three uniform draws in [0, 1) as parameters: the centre of a random cell and one of
      the four special weapons; the bullet fallback is never chosen. */
  function RandomPowerUp(m: Maze, id: nat, rx: real, ry: real, rt: real, now: int): (r: PowerUp)
    requires m.height >= 1 && m.width >= 1
    requires 0.0 <= rx < 1.0 && 0.0 <= ry < 1.0 && 0.0 <= rt < 1.0
    ensures r.id == id && r.weapon != Bullet
    ensures (rt * 4.0).Floor == 0 ==> r.weapon == Rocket
    ensures (rt * 4.0).Floor == 1 ==> r.weapon == Mine
    ensures (rt * 4.0).Floor == 2 ==> r.weapon == AirBurst
    ensures (rt * 4.0).Floor == 3 ==> r.weapon == Laser
    ensures var c := Cell((ry * m.height as real).Floor, (rx * m.width as real).Floor);
      InGrid(m.height, m.width, c) && r.position == Centre(m.scale, c, now)
  {
    var col := (rx * m.width as real).Floor;
    var row := (ry * m.height as real).Floor;
    DrawBelow(rx, m.width);
    DrawBelow(ry, m.height);
    var c := GetNode(m, col, row).value;
    var kind := (rt * 4.0).Floor;
    DrawBelow(rt, 4);
    var w := if kind == 0 then Rocket else if kind == 3 then Laser else if kind == 2 then AirBurst
      else if kind == 1 then Mine else Bullet;
    PowerUp(id, Centre(m.scale, c, now), w)
  }

  /** floor(r * n) of a draw in [0, 1) indexes one of n slots. */
  lemma DrawBelow(r: real, n: nat)
    requires 0.0 <= r < 1.0 && n >= 1
    ensures 0 <= (r * n as real).Floor < n
  {
    MulLt(r, 1.0, n as real);
    MulLe(0.0, r, n as real);
  }

  /** Every special weapon is drawn for a quarter of the range of the type draw. */
  lemma RandomPowerUpCovers(m: Maze, id: nat, now: int, w: Weapon)
    requires m.height >= 1 && m.width >= 1 && w != Bullet
    ensures exists rt: real :: 0.0 <= rt < 1.0 && RandomPowerUp(m, id, 0.0, 0.0, rt, now).weapon == w
  {
    var rt := if w == Rocket then 0.0 else if w == Mine then 0.25 else if w == AirBurst then 0.5 else 0.75;
    assert RandomPowerUp(m, id, 0.0, 0.0, rt, now).weapon == w;
  }

  /** Every cell of the grid is drawn by some pair of position draws. */
  lemma RandomPowerUpCellCovers(m: Maze, id: nat, now: int, rt: real, c: Cell)
    requires m.height >= 1 && m.width >= 1 && 0.0 <= rt < 1.0 && InGrid(m.height, m.width, c)
    ensures exists rx: real, ry: real ::
      && 0.0 <= rx < 1.0 && 0.0 <= ry < 1.0
      && RandomPowerUp(m, id, rx, ry, rt, now).position == Centre(m.scale, c, now)
  {
    var rx := SlotDraw(c.col, m.width);
    var ry := SlotDraw(c.row, m.height);
    var col, row := (rx * m.width as real).Floor, (ry * m.height as real).Floor;
    assert Cell(row, col) == c;
    RandomPowerUpCell(m, id, rx, ry, rt, now);
    assert RandomPowerUp(m, id, rx, ry, rt, now).position == Centre(m.scale, Cell(row, col), now);
  }

  /** The cell a power-up lands in, as its own fact, so that a proof can use it apart from the draws' arithmetic. */
  lemma RandomPowerUpCell(m: Maze, id: nat, rx: real, ry: real, rt: real, now: int)
    requires m.height >= 1 && m.width >= 1
    requires 0.0 <= rx < 1.0 && 0.0 <= ry < 1.0 && 0.0 <= rt < 1.0
    ensures RandomPowerUp(m, id, rx, ry, rt, now).position
      == Centre(m.scale, Cell((ry * m.height as real).Floor, (rx * m.width as real).Floor), now)
  {
  }

  /** The draw a / n selects slot a of n. */
  lemma SlotDraw(a: int, n: int) returns (x: real)
    requires 0 <= a < n
    ensures 0.0 <= x < 1.0 && (x * n as real).Floor == a
  {
    x := a as real / n as real;
    assert x * n as real == a as real;
  }
}
