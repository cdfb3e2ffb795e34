/** The homing rocket: choosing the target, the lock-on boost, the breadth-first route through the maze and the
    steering (Rocket.update in projectiles.js). */
module Rockets {
  import opened Wrappers
  import opened Geometry
  import opened Grid
  import opened Graph
  import opened MazeMap
  import opened Players
  import opened Projectiles

  // ---------------------------------------------------------------------------
  // Target choice

  /** The nearest living player among players[k..], given the best of players[..k]; a strictly shorter distance
      is needed to replace the current choice, so the first of equally near players is kept. */
  function NearestFrom(ps: seq<Player>, q: Position, k: nat, best: Option<nat>): (r: Option<nat>)
    requires k <= |ps|
    requires best.Some? ==> best.value < k && ps[best.value].alive
    requires best.Some? ==> forall j :: 0 <= j < k && ps[j].alive ==>
      DistSq(q, ps[best.value].position) <= DistSq(q, ps[j].position)
    requires best.Some? ==> forall j :: 0 <= j < best.value && ps[j].alive ==>
      DistSq(q, ps[best.value].position) < DistSq(q, ps[j].position)
    requires best.None? ==> forall j :: 0 <= j < k ==> !ps[j].alive
    ensures r.Some? ==> r.value < |ps| && ps[r.value].alive
    ensures r.Some? ==> forall j :: 0 <= j < |ps| && ps[j].alive ==>
      DistSq(q, ps[r.value].position) <= DistSq(q, ps[j].position)
    ensures r.Some? ==> forall j :: 0 <= j < r.value && ps[j].alive ==>
      DistSq(q, ps[r.value].position) < DistSq(q, ps[j].position)
    ensures r.None? ==> forall j :: 0 <= j < |ps| ==> !ps[j].alive
    decreases |ps| - k
  {
    if k == |ps| then best
    else if !ps[k].alive then NearestFrom(ps, q, k + 1, best)
    else if best.None? || DistSq(q, ps[k].position) < DistSq(q, ps[best.value].position) then
      NearestFrom(ps, q, k + 1, Some(k))
    else NearestFrom(ps, q, k + 1, best)
  }

  /** The player the rocket locks on to: the nearest living one (the first of equals), players[0] when nobody is
      alive, and nobody when the round has no players. */
  function Nearest(ps: seq<Player>, q: Position): (r: Option<nat>)
    ensures r.None? <==> |ps| == 0
    ensures r.Some? ==> r.value < |ps|
    ensures (exists j :: 0 <= j < |ps| && ps[j].alive) ==>
      && r.Some? && ps[r.value].alive
      && (forall j :: 0 <= j < |ps| && ps[j].alive ==> DistSq(q, ps[r.value].position) <= DistSq(q, ps[j].position))
      && (forall j :: 0 <= j < r.value && ps[j].alive ==> DistSq(q, ps[r.value].position) < DistSq(q, ps[j].position))
    ensures |ps| > 0 && (forall j :: 0 <= j < |ps| ==> !ps[j].alive) ==> r == Some(0)
  {
    match NearestFrom(ps, q, 0, None)
    case Some(i) => Some(i)
    case None => if |ps| == 0 then None else Some(0)
  }

  // ---------------------------------------------------------------------------
  // The route

  /** What the breadth-first search and the parent walk yield: no next cell (the update returns), the next cell,
      or a walk up the parent map that never ends. */
  datatype Hop = NoHop | HopTo(next: Cell) | Hang

  /** The search from the rocket's cell to the target's cell. Off the map a cell is null: from off the map the
      route is the target cell itself; towards no cell, or a cell that cannot be reached, the parent walk loops
      forever; otherwise the next cell is a connected neighbour one step closer along a shortest route. Which of
      several equally short routes is taken is left open. */
  method RouteHop(g: Conn, cur: Option<Cell>, tgt: Option<Cell>) returns (h: Hop)
    requires Closed(g)
    requires cur.Some? ==> cur.value in g
    ensures cur.None? ==> h == (if tgt.None? then NoHop else HopTo(tgt.value))
    ensures cur.Some? && tgt.None? ==> h == Hang
    ensures cur.Some? && tgt.Some? ==> (h == NoHop <==> cur.value == tgt.value)
    ensures cur.Some? && tgt.Some? && cur.value != tgt.value ==>
      (h == Hang <==> !Reachable(g, cur.value, tgt.value))
    ensures cur.Some? && h.HopTo? ==>
      && h.next in g[cur.value]
      && exists d: nat :: Within(g, h.next, tgt.value, d) && !Within(g, cur.value, tgt.value, d)
  {
    if cur.None? {
      return if tgt.None? then NoHop else HopTo(tgt.value);
    }
    if tgt.None? {
      return Hang;
    }
    var c, t := cur.value, tgt.value;
    if c == t {
      return NoHop;
    }
    var ball := {c};
    var k: nat := 0;
    BallInKeys(g, c, 0);
    SubsetCard(ball, g.Keys);
    while t !in ball
      invariant ball == Ball(g, c, k) && ball <= g.Keys && |ball| <= |g.Keys|
      invariant k > 0 ==> t !in Ball(g, c, k - 1)
      decreases |g.Keys| - |ball|
    {
      var next := Expand(g, ball);
      if next == ball {
        StableBallHasReachable(g, c, k, t);
        return Hang;
      }
      BallGrows(g, c, k);
      ball, k := next, k + 1;
    }
    FirstHop(g, c, t, k);
    var n :| n in g[c] && t in Ball(g, n, k - 1);
    return HopTo(n);
  }

  /** A layer that adds a cell is larger, and still inside the relation's cells. */
  lemma BallGrows(g: Conn, c: Cell, k: nat)
    requires Closed(g) && c in g && Expand(g, Ball(g, c, k)) != Ball(g, c, k)
    ensures Ball(g, c, k + 1) <= g.Keys
    ensures |Ball(g, c, k)| < |Ball(g, c, k + 1)| <= |g.Keys|
  {
    var ball, next := Ball(g, c, k), Ball(g, c, k + 1);
    BallInKeys(g, c, k + 1);
    var x :| x in next && x !in ball;
    SubsetCard(ball + {x}, next);
    SubsetCard(next, g.Keys);
  }

  /** When t first appears in layer k, it is reachable, some connected neighbour of c has it in layer k - 1, and
      every such neighbour is one step closer to it than c. */
  lemma FirstHop(g: Conn, c: Cell, t: Cell, k: nat)
    requires Closed(g) && c in g && c != t
    requires t in Ball(g, c, k) && (k > 0 ==> t !in Ball(g, c, k - 1))
    ensures k > 0 && Reachable(g, c, t)
    ensures exists n :: n in g[c] && t in Ball(g, n, k - 1)
    ensures forall n :: n in g[c] && t in Ball(g, n, k - 1) ==> Within(g, n, t, k - 1) && !Within(g, c, t, k - 1)
  {
    if k == 0 {
      assert false;
    }
    BallWithin(g, c, k, t);
    WithinReachable(g, c, t, k);
    FirstHopExists(g, c, t, k - 1);
    CloserNeighbours(g, c, t, k - 1);
  }

  lemma FirstHopExists(g: Conn, c: Cell, t: Cell, d: nat)
    requires Closed(g) && c != t && Within(g, c, t, d + 1)
    ensures exists n :: n in g[c] && t in Ball(g, n, d)
  {
    var n := FirstStep(g, c, t, d);
    assert n in g;
    BallWithin(g, n, d, t);
    assert n in g[c] && t in Ball(g, n, d);
  }

  lemma CloserNeighbours(g: Conn, c: Cell, t: Cell, d: nat)
    requires Closed(g) && c in g && t !in Ball(g, c, d)
    ensures forall n :: n in g[c] && t in Ball(g, n, d) ==> Within(g, n, t, d) && !Within(g, c, t, d)
  {
    BallWithin(g, c, d, t);
    forall n | n in g[c] && t in Ball(g, n, d)
      ensures Within(g, n, t, d)
    {
      BallWithin(g, n, d, t);
    }
  }

  /** In a connected maze the search never loops as long as both cells are on the map. */
  lemma ConnectedNeverHangs(m: Maze, c: Cell, t: Cell)
    requires Valid(m) && Connected(m.connected) && c in m.connected && t in m.connected
    ensures Reachable(m.connected, c, t)
  {
  }

  /** The cells of a valid maze connect only to cells of the maze. */
  lemma ValidClosed(m: Maze)
    requires Valid(m)
    ensures Closed(m.connected)
  {
    forall a, b | a in m.connected && b in m.connected[a]
      ensures b in m.connected
    {
      assert InGrid(m.height, m.width, b);
    }
  }

  // ---------------------------------------------------------------------------
  // Steering

  /** `x % 360` for JavaScript numbers: the remainder takes the sign of x. */
  function Rem360(x: real): (r: real)
    ensures x >= 0.0 ==> 0.0 <= r < 360.0
    ensures x < 0.0 ==> -360.0 < r <= 0.0
    ensures exists n: int :: x - r == Turns(n)
  {
    var q := x / 360.0;
    var n := if q >= 0.0 then q.Floor else -((-q).Floor);
    assert x - (x - Turns(n)) == Turns(n);
    x - Turns(n)
  }

  /** n whole turns, in degrees. */
  function Turns(n: int): real
  {
    360.0 * n as real
  }

  /** Where the rocket aims this tick, with its new goToNew flag and remembered cell. */
  datatype Aim = Aim(point: Position, goToNew: bool, lastNode: Option<Cell>)

  /** The rocket lies within half a cell of the centre of the cell it is in. */
  predicate NearCentre(scale: nat, pos: Position, cur: Option<Cell>, now: int)
  {
    cur.Some? && DistSq(pos, Centre(scale, cur.value, now)) < (scale as real / 2.0) * (scale as real / 2.0)
  }

  /** The steering part of Rocket.update. Entering a new cell clears goToNew; near the centre of its cell, or once
      goToNew is set, the rocket heads for the centre of the next cell, else for the centre of its own. As written
      the update returns when there is no next cell, before the branch that would aim at the target player when
      both are in the same cell; corrected, that branch is reached. */
  function AimAt(pol: Removal, scale: nat, pos: Position, goToNew: bool, lastNode: Option<Cell>, cur: Option<Cell>,
    tgt: Option<Cell>, tgtPos: Position, hop: Hop, now: int): (r: Option<Aim>)
    requires hop != Hang
    ensures r.None? <==> hop == NoHop && !(pol == Corrected && cur.Some? && cur == tgt)
    ensures r.Some? ==> r.value.lastNode == cur
    ensures r.Some? && lastNode != cur && !(hop.HopTo? && NearCentre(scale, pos, cur, now)) ==> !r.value.goToNew
    ensures r.Some? && cur == tgt ==> r.value.point == tgtPos
    ensures r.Some? && cur != tgt && hop.HopTo? && goToNew && lastNode == cur ==>
      r.value.point == Centre(scale, hop.next, now) && r.value.goToNew
    ensures r.Some? && cur != tgt ==>
      || (hop.HopTo? && r.value.point == Centre(scale, hop.next, now))
      || (cur.Some? && r.value.point == Centre(scale, cur.value, now))
      || (cur.None? && r.value.point == pos)
    ensures r.Some? && cur != tgt && hop.HopTo? && NearCentre(scale, pos, cur, now) ==>
      r.value.point == Centre(scale, hop.next, now)
    ensures r.Some? && cur != tgt && cur.Some? && lastNode != cur && !NearCentre(scale, pos, cur, now) ==>
      r.value.point == Centre(scale, cur.value, now)
    ensures r.Some? ==>
      (r.value.goToNew <==> (hop.HopTo? && NearCentre(scale, pos, cur, now)) || (lastNode == cur && goToNew))
  {
    if hop == NoHop && !(pol == Corrected && cur.Some? && cur == tgt) then None
    else
      var g1 := if lastNode != cur then false else goToNew;
      var nearCentre := NearCentre(scale, pos, cur, now);
      var (point, g2) :=
        if hop.HopTo? && (nearCentre || g1) then (Centre(scale, hop.next, now), true)
        else if cur.Some? then (Centre(scale, cur.value, now), g1)
        else (pos, g1);
      Some(Aim(if cur == tgt then tgtPos else point, g2, cur))
  }

  /** As written, a rocket in the target's cell is never steered at the target: the search finds no next cell
      and the update returns first. */
  lemma SameCellNeverAims(scale: nat, pos: Position, goToNew: bool, lastNode: Option<Cell>, c: Cell,
    tgtPos: Position, now: int)
    ensures AimAt(AsWritten, scale, pos, goToNew, lastNode, Some(c), Some(c), tgtPos, NoHop, now).None?
  {
  }

  /** Corrected, a rocket in the target's cell aims straight at the target player. */
  lemma SameCellAimsAtPlayer(scale: nat, pos: Position, goToNew: bool, lastNode: Option<Cell>, c: Cell,
    tgtPos: Position, now: int)
    ensures var r := AimAt(Corrected, scale, pos, goToNew, lastNode, Some(c), Some(c), tgtPos, NoHop, now);
      r.Some? && r.value.point == tgtPos
  {
  }

  // ---------------------------------------------------------------------------
  // The update

  /** The end of one projectile update: finished, thrown (the round's tick stops there), or stuck forever. */
  datatype Outcome = Done(step: Step) | Crashed | Hung

  /** The heading towards a point, `(angleTo + 360) % 360`. */
  function AimHeading(phys: Physics, from: Position, to: Position): real
  {
    Rem360(phys.angleTo(from, to) + 360.0)
  }

  /** n is one step closer to t than c is. */
  ghost predicate StepCloser(g: Conn, n: Cell, c: Cell, t: Cell)
  {
    exists d: nat :: Within(g, n, t, d) && !Within(g, c, t, d)
  }

  /** A heading that follows the route out of cell c towards cell t: at the centre of c, or at the centre of a
      connected neighbour of c one step closer to t. */
  ghost predicate RoutedHeading(m: Maze, phys: Physics, pos: Position, c: Cell, t: Cell, heading: real, now: int)
  {
    || heading == AimHeading(phys, pos, Centre(m.scale, c, now))
    || (c in m.connected
        && exists n :: n in m.connected[c] && StepCloser(m.connected, n, c, t)
                       && heading == AimHeading(phys, pos, Centre(m.scale, n, now)))
  }

  /** Rocket.update after the base update: lock on to the nearest player (restarting the 2.5 s lock timer when the
      choice changes) and fly 1.4 times faster while locking; afterwards fly at nominal speed, search the route
      and steer. Without players the lock ends in a TypeError; a target off the map, or a rocket cut off from
      it, makes the route walk loop forever. */
  method RocketStep(pol: Removal, m: Maze, phys: Physics, s: Step, now: int) returns (o: Outcome)
    requires s.self.kind.Homing? && Valid(m)
    ensures o.Done? ==>
      && o.step.players == s.players && o.step.removals == s.removals
      && o.step.spawned == s.spawned
      && o.step.self == s.self.(kind := o.step.self.kind, motion := o.step.self.motion)
    ensures o.Done? ==> o.step.self.kind.Homing? && o.step.self.kind.target == Nearest(s.players, s.self.position)
    ensures var k := s.self.kind;
      var lock := if k.target != Nearest(s.players, s.self.position) then now else k.lastLock;
      && (o.Done? ==> o.step.self.kind.lastLock == lock)
      && (now - lock < 2500 ==> o == Done(s.(self := s.self.(kind := k.(target := Nearest(s.players,
            s.self.position), lastLock := lock), motion := SetSpeed(s.self.motion, s.self.speed * 1.4)))))
      && (o == Crashed <==> now - lock >= 2500 && |s.players| == 0)
    ensures o == Hung ==> GetNodeFromPos(m, s.self.position).Some?
    ensures Connected(m.connected) && o == Hung ==>
      && |s.players| > 0
      && GetNodeFromPos(m, s.players[Nearest(s.players, s.self.position).value].position).None?
    ensures (o.Done? && now - s.self.kind.lastLock >= 2500
      && s.self.kind.target == Nearest(s.players, s.self.position)) ==>
        o.step.self.motion.speed == s.self.speed || o.step.self.motion.speed == -s.self.speed
    ensures var cur := GetNodeFromPos(m, s.self.position);
      o.Done? && now - o.step.self.kind.lastLock >= 2500 && cur.Some? && |s.players| > 0
      && cur == GetNodeFromPos(m, s.players[Nearest(s.players, s.self.position).value].position) ==>
        if pol == AsWritten then o.step.self.motion == SetSpeed(s.self.motion, s.self.speed)
        else o.step.self.motion.heading == AimHeading(phys, s.self.position,
          s.players[Nearest(s.players, s.self.position).value].position)
    ensures var cur := GetNodeFromPos(m, s.self.position);
      var tgt := if |s.players| > 0 then GetNodeFromPos(m, s.players[Nearest(s.players, s.self.position).value].position)
        else None;
      o.Done? && now - o.step.self.kind.lastLock >= 2500 && cur.Some? && tgt.Some? && cur != tgt ==>
        RoutedHeading(m, phys, s.self.position, cur.value, tgt.value, o.step.self.motion.heading, now)
  {
    var p := s.self;
    var k := p.kind;
    var target := Nearest(s.players, p.position);
    var lock := if k.target != target then now else k.lastLock;
    if now - lock < 2500 {
      return Done(s.(self := p.(kind := k.(target := target, lastLock := lock),
        motion := SetSpeed(p.motion, p.speed * 1.4))));
    }
    var motion := SetSpeed(p.motion, p.speed);
    if target.None? {
      return Crashed;
    }
    ValidClosed(m);
    var cur := GetNodeFromPos(m, p.position);
    var tgtPos := s.players[target.value].position;
    var tgt := GetNodeFromPos(m, tgtPos);
    var hop := RouteHop(m.connected, cur, tgt);
    if hop == Hang {
      if Connected(m.connected) && tgt.Some? {
        ConnectedNeverHangs(m, cur.value, tgt.value);
      }
      return Hung;
    }
    var aim := AimAt(pol, m.scale, p.position, k.goToNew, k.lastNode, cur, tgt, tgtPos, hop, now);
    match aim
    case None =>
      return Done(s.(self := p.(kind := k.(target := target, lastLock := lock), motion := motion)));
    case Some(a) =>
      var heading := AimHeading(phys, p.position, a.point);
      if cur.Some? && cur != tgt {
        assert hop.HopTo? ==> StepCloser(m.connected, hop.next, cur.value, tgt.value);
      }
      return Done(s.(self := p.(kind := Homing(target, lock, a.goToNew, a.lastNode),
        motion := SetAngle(motion, heading))));
  }
}
