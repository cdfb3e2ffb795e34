/** One round of the game: the maze it is played in, placing the players, their move and shoot events, the
    per-tick update of projectiles and power-ups, the broadcast state and the end-of-round point (round.js). */
module Rounds {
  import opened Wrappers
  import opened Geometry
  import opened Grid
  import opened Graph
  import opened MazeMap
  import opened Walls
  import opened Players
  import opened Projectiles
  import opened Rockets

  /** A round. `failsafeArmed` stands for the 500 s fallback timeout having been set; `nextId` is the first
      unused projectile and power-up id. */
  datatype Round = Round(
    gameCode: string,
    roundNumber: int,
    players: seq<Player>,
    projectiles: seq<Projectile>,
    powerups: seq<PowerUp>,
    maze: Maze,
    walls: WallManager,
    failsafeArmed: bool,
    nextId: nat)

  // ---------------------------------------------------------------------------
  // Sizing the maze

  /** The game's size, or 1 when the game or its size is missing. */
  function MapSize(gameSize: Option<nat>): (n: nat)
    ensures gameSize.None? ==> n == 1
    ensures gameSize.Some? ==> n == gameSize.value
  {
    if gameSize.Some? then gameSize.value else 1
  }

  /** `new Maze(2 + 2 * size, 3 + 3 * size, 100)`: always a 3:2 grid of at least 2 x 3 cells. */
  function Height(size: nat): (h: nat)
    ensures h >= 2 && h % 2 == 0
  {
    2 + 2 * size
  }

  function Width(size: nat): (w: nat)
    ensures w >= 3 && w % 3 == 0
  {
    3 + 3 * size
  }

  /** The grid keeps the 3:2 proportion and grows with the game's size. */
  lemma SizeProportion(size: nat, bigger: nat)
    requires size <= bigger
    ensures 2 * Width(size) == 3 * Height(size)
    ensures Height(size) <= Height(bigger) && Width(size) <= Width(bigger)
    ensures Height(size) * Width(size) == 6 * (size + 1) * (size + 1)
  {
  }

  /** The openness as written: `Math.random() * mapSize * 0.15`, with no upper bound. */
  function OpennessAsWritten(draw: real, size: nat): real
  {
    draw * size as real * 0.15
  }

  /** The openness clamped to the range removeWalls documents, [0, 1]. */
  function Openness(draw: real, size: nat): (o: real)
    requires 0.0 <= draw < 1.0
    ensures 0.0 <= o <= 1.0
    ensures OpennessAsWritten(draw, size) <= 1.0 ==> o == OpennessAsWritten(draw, size)
  {
    MulLe(0.0, draw, size as real);
    var o := OpennessAsWritten(draw, size);
    if o > 1.0 then 1.0 else o
  }

  /** Up to a size of 6 the clamp never applies, so the corrected openness is the written one. */
  lemma SmallMapsUnclamped(draw: real, size: nat)
    requires 0.0 <= draw < 1.0 && size <= 6
    ensures OpennessAsWritten(draw, size) <= 0.9
    ensures Openness(draw, size) == OpennessAsWritten(draw, size)
  {
    MulLe(draw, 1.0, size as real);
    MulLe(draw * size as real, 6.0, 0.15);
  }

  /** As written, a game of size 7 and a draw of 0.99 ask removeWalls for more passages than the grid has room
      for: 358 on top of the 383 of the spanning tree, where only 345 are left, so its search for a walled
      neighbour never ends. */
  lemma LargeMapOpennessOverflows()
    ensures Height(7) == 16 && Width(7) == 24
    ensures MaxEdges(16, 24) - (16 * 24 - 1) == 345
    ensures ToAdd(16, 24, OpennessAsWritten(0.99, 7)) == 358
  {
    assert OpennessAsWritten(0.99, 7) == 1.0395;
    assert 345.0 * 1.0395 == 358.6275;
  }

  /** Corrected, every draw leaves removeWalls room for the passages it is asked to open. */
  lemma OpennessLeavesRoom(draw: real, size: nat)
    requires 0.0 <= draw < 1.0
    ensures 2 * (Height(size) * Width(size) - 1) + 2 * ToAdd(Height(size), Width(size), Openness(draw, size))
      <= 2 * MaxEdges(Height(size), Width(size))
  {
    SpanningTreeLeavesRoom(Height(size), Width(size), Openness(draw, size));
  }

  // ---------------------------------------------------------------------------
  // Setting up a round

  /** A player placed at the centre of a cell and revived with the bullet and no charges. */
  function Place(p: Player, scale: nat, c: Cell, now: int): (r: Player)
    ensures r.id == p.id && r.name == p.name && r.score == p.score
    ensures r.position == Centre(scale, c, now) && r.alive && r.weapon == Bullet && r.uses == 0
  {
    p.(position := Centre(scale, c, now), alive := true, weapon := Bullet, uses := 0)
  }

  /** initializePlayers: each player goes to the centre of a random cell no earlier player took (the retry loop is
      a nondeterministic choice among the free cells), then is revived with the bullet and no charges. The retry
      loop can only finish while a free cell is left, so there must be no more players than cells. */
  method InitializePlayers(m: Maze, players: seq<Player>, now: int) returns (out: seq<Player>, cells: seq<Cell>)
    requires |players| <= m.height * m.width
    ensures |out| == |players| && |cells| == |players|
    ensures Distinct(cells)
    ensures forall k :: 0 <= k < |cells| ==> InGrid(m.height, m.width, cells[k])
    ensures forall k :: 0 <= k < |out| ==>
      out[k] == Place(players[k], m.scale, cells[k], now)
  {
    out, cells := [], [];
    for i := 0 to |players|
      invariant |out| == i && |cells| == i && Distinct(cells)
      invariant forall k :: 0 <= k < i ==> InGrid(m.height, m.width, cells[k])
      invariant forall k :: 0 <= k < i ==> out[k] == Place(players[k], m.scale, cells[k], now)
    {
      var used := set x | x in cells;
      DistinctSeqCard(cells);
      var c := FreeCell(m.height, m.width, used);
      AppendFresh(cells, used, c);
      var placed := Place(players[i], m.scale, c, now);
      assert forall k :: 0 <= k < i ==> (out + [placed])[k] == out[k];
      out, cells := out + [placed], cells + [c];
    }
  }

  /** Appending a cell not yet used keeps the list free of repeats and the used set equal to its elements. */
  lemma AppendFresh(cells: seq<Cell>, used: set<Cell>, c: Cell)
    requires Distinct(cells) && used == (set x | x in cells) && c !in used
    ensures Distinct(cells + [c])
  {
  }

  /** A cell outside the used set (the retry loop's pick). */
  method FreeCell(h: nat, w: nat, used: set<Cell>) returns (c: Cell)
    requires |used| < h * w
    ensures InGrid(h, w, c) && c !in used
  {
    FreeCellExists(h, w, used);
    c :| c in Cells(h, w) && c !in used;
  }

  /** Fewer used cells than cells leaves a free one. */
  lemma FreeCellExists(h: nat, w: nat, used: set<Cell>)
    requires |used| < h * w
    ensures exists c :: c in Cells(h, w) && c !in used
  {
    CellsCard(h, w);
    if forall c :: c in Cells(h, w) ==> c in used {
      SubsetCard(Cells(h, w), used);
      assert false;
    }
  }

  /** The Round constructor: a (2 + 2 size) x (3 + 3 size) maze at scale 100 with the clamped openness, its wall
      list, and the players placed; no projectiles, power-ups or failsafe yet. */
  method NewRound(gameCode: string, players: seq<Player>, roundNumber: int, gameSize: Option<nat>, draw: real,
    now: int) returns (r: Round)
    requires 0.0 <= draw < 1.0
    requires |players| <= Height(MapSize(gameSize)) * Width(MapSize(gameSize))
    ensures r.gameCode == gameCode && r.roundNumber == roundNumber
    ensures r.maze.height == Height(MapSize(gameSize)) && r.maze.width == Width(MapSize(gameSize))
    ensures r.maze.scale == 100 && Valid(r.maze) && Connected(r.maze.connected)
    ensures r.walls == NewWallManager(r.maze)
    ensures |r.players| == |players|
    ensures forall j, k :: 0 <= j < k < |r.players| ==> r.players[j].position != r.players[k].position
    ensures forall k :: 0 <= k < |r.players| ==>
      && r.players[k].alive && r.players[k].weapon == Bullet && r.players[k].uses == 0
      && GetNodeFromPos(r.maze, r.players[k].position).Some?
    ensures SamePeople(r.players, players)
    ensures r.projectiles == [] && r.powerups == [] && !r.failsafeArmed && r.nextId == 0
  {
    var size := MapSize(gameSize);
    var m := RoundMaze(size, draw, now);
    var placed, cells := InitializePlayers(m, players, now);
    PlacedApart(m, players, placed, cells, now);
    r := Round(gameCode, roundNumber, placed, [], [], m, NewWallManager(m), false, 0);
  }

  /** The round's maze: a spanning tree of the (2 + 2 size) x (3 + 3 size) grid at scale 100, opened further by
      the clamped openness. */
  method RoundMaze(size: nat, draw: real, now: int) returns (m: Maze)
    requires 0.0 <= draw < 1.0
    ensures m.height == Height(size) && m.width == Width(size) && m.scale == 100
    ensures Valid(m) && Connected(m.connected)
    ensures |Arcs(m.connected)| >= 2 * (Height(size) * Width(size) - 1)
  {
    m := NewMaze(Height(size), Width(size), 100, now);
    OpennessLeavesRoom(draw, size);
    m := RemoveWalls(m, Openness(draw, size));
  }

  /** Players placed at the centres of distinct grid cells stand apart, each inside the maze. */
  lemma PlacedApart(m: Maze, players: seq<Player>, placed: seq<Player>, cells: seq<Cell>, now: int)
    requires m.scale > 0 && |placed| == |players| && |cells| == |players| && Distinct(cells)
    requires forall k :: 0 <= k < |cells| ==> InGrid(m.height, m.width, cells[k])
    requires forall k :: 0 <= k < |placed| ==>
      placed[k] == Place(players[k], m.scale, cells[k], now)
    ensures forall j, k :: 0 <= j < k < |placed| ==> placed[j].position != placed[k].position
    ensures forall k :: 0 <= k < |placed| ==> GetNodeFromPos(m, placed[k].position).Some?
    ensures SamePeople(placed, players)
  {
    forall j, k | 0 <= j < k < |placed|
      ensures placed[j].position != placed[k].position
    {
      CentresApart(m.scale, cells[j], cells[k], now);
    }
    forall k | 0 <= k < |placed|
      ensures GetNodeFromPos(m, placed[k].position).Some?
    {
      NodeFromCentre(m, cells[k], now);
    }
  }

  /** Different cells have different centres. */
  lemma CentresApart(scale: nat, a: Cell, b: Cell, now: int)
    requires scale > 0 && a != b
    ensures Centre(scale, a, now) != Centre(scale, b, now)
  {
    if Centre(scale, a, now) == Centre(scale, b, now) {
      CentreInSquare(scale, a, now);
      CentreInSquare(scale, b, now);
      var p := Centre(scale, a, now);
      SquareUnique(scale, a, b, p.x, p.y);
    }
  }

  // ---------------------------------------------------------------------------
  // Player events

  /** One entry of an `events` message. */
  datatype Event =
    | MoveEvent(position: CondensedPosition, bodyAngle: real, turretAngle: real)
    | ShootEvent(position: CondensedPosition, turretAngle: real)
    | OtherEvent

  /** How many projectiles of the list the player with this id fired itself; fragments belong to their parent
      projectile and do not count. */
  function Owned(s: seq<Projectile>, id: nat): (n: nat)
    ensures n <= |s|
    ensures n == 0 <==> forall k :: 0 <= k < |s| ==> s[k].owner != PlayerOwner(id)
  {
    if s == [] then 0
    else (if s[0].owner == PlayerOwner(id) then 1 else 0) + Owned(s[1..], id)
  }

  lemma {:induction false} OwnedAppend(s: seq<Projectile>, p: Projectile, id: nat)
    ensures Owned(s + [p], id) == Owned(s, id) + (if p.owner == PlayerOwner(id) then 1 else 0)
    decreases |s|
  {
    if s != [] {
      assert (s + [p])[1..] == s[1..] + [p];
      OwnedAppend(s[1..], p, id);
    } else {
      assert [p][1..] == [];
    }
  }

  lemma {:induction false} OwnedConcat(a: seq<Projectile>, b: seq<Projectile>, id: nat)
    ensures Owned(a + b, id) == Owned(a, id) + Owned(b, id)
    decreases |a|
  {
    if a != [] {
      assert (a + b)[1..] == a[1..] + b;
      OwnedConcat(a[1..], b, id);
    } else {
      assert a + b == b;
    }
  }

  /** The count depends only on the owners, position by position. */
  lemma {:induction false} OwnedSameOwners(a: seq<Projectile>, b: seq<Projectile>, id: nat)
    requires |a| == |b| && forall k :: 0 <= k < |a| ==> a[k].owner == b[k].owner
    ensures Owned(a, id) == Owned(b, id)
    decreases |a|
  {
    if a != [] {
      assert forall k :: 0 <= k < |a| - 1 ==> a[1..][k] == a[k + 1] && b[1..][k] == b[k + 1];
      OwnedSameOwners(a[1..], b[1..], id);
    }
  }

  /** Taking one projectile out never raises a count. */
  lemma OwnedDrop(s: seq<Projectile>, x: nat, id: nat)
    requires x < |s|
    ensures Owned(s[..x] + s[x + 1..], id) <= Owned(s, id)
  {
    assert s == (s[..x] + [s[x]]) + s[x + 1..];
    OwnedConcat(s[..x] + [s[x]], s[x + 1..], id);
    OwnedConcat(s[..x], [s[x]], id);
    OwnedConcat(s[..x], s[x + 1..], id);
  }

  /** One self-removal never raises a count. */
  lemma RemoveSelfOwned(pol: Removal, s: seq<Projectile>, id: nat, o: nat)
    ensures Owned(RemoveSelf(pol, s, id), o) <= Owned(s, o)
  {
    RemoveSelfDrops(pol, s, id);
    var x := RemovedAt(pol, s, id);
    if x != -1 {
      OwnedDrop(s, x, o);
    }
  }

  /** The self-removals never raise a count. */
  lemma {:induction false} RemoveNOwned(pol: Removal, s: seq<Projectile>, id: nat, n: nat, o: nat)
    ensures Owned(RemoveN(pol, s, id, n), o) <= Owned(s, o)
    decreases n
  {
    if n > 0 {
      var t, n' := RemoveSelf(pol, s, id), n - 1;
      assert RemoveN(pol, s, id, n) == RemoveN(pol, t, id, n');
      RemoveSelfOwned(pol, s, id, o);
      RemoveNOwned(pol, t, id, n', o);
    }
  }

  /** An update whose projectile keeps its owner and whose fragments belong to projectiles never raises a
      player's count. */
  lemma ApplyKeepsOwned(pol: Removal, s: seq<Projectile>, i: nat, st: Step, id: nat)
    requires UniqueIds(s) && i < |s| && st.self.id == s[i].id && st.self.owner == s[i].owner
    requires forall k :: 0 <= k < |st.spawned| ==> st.spawned[k].owner.ProjectileOwner?
    ensures Owned(Apply(pol, s, st), id) <= Owned(s, id)
  {
    var r := RemoveN(pol, s, st.self.id, st.removals);
    RemoveNOwned(pol, s, st.self.id, st.removals, id);
    if st.removals >= 1 {
      RemovedSelfTail(pol, s, i, st.removals);
    }
    var w := WriteBack(r, st.self);
    assert forall k :: 0 <= k < |w| ==> w[k].owner == r[k].owner;
    OwnedSameOwners(w, r, id);
    OwnedConcat(w, st.spawned, id);
    assert Owned(st.spawned, id) == 0;
  }


  /** A move: the wall-checked position update, then the two angles, for living and dead players alike. */
  function Move(r: Round, i: nat, position: CondensedPosition, bodyAngle: real, turretAngle: real, now: int)
    : (r': Round)
    requires i < |r.players|
    ensures r' == r.(players := r'.players) && |r'.players| == |r.players|
    ensures r'.players[i] == UpdatePosition(r.players[i], r.walls, FromCondensed(position, now), now)
      .(bodyAngle := bodyAngle, turretAngle := turretAngle)
    ensures forall k :: 0 <= k < |r.players| && k != i ==> r'.players[k] == r.players[k]
  {
    var p := UpdatePosition(r.players[i], r.walls, FromCondensed(position, now), now);
    r.(players := r.players[i := p.(bodyAngle := bodyAngle, turretAngle := turretAngle)])
  }

  /** A shot is taken only by a living player with fewer than 5 of its own projectiles in the round: the weapon's
      projectile is appended (aimed along the turret) and one charge is spent. */
  function Shoot(r: Round, i: nat, position: CondensedPosition, turretAngle: real, now: int): (r': Round)
    requires i < |r.players|
    ensures var p := r.players[i];
      if p.alive && Owned(r.projectiles, p.id) < 5 then
        && r'.projectiles == r.projectiles + [Fire(p.weapon, r.nextId, FromCondensed(position, now),
             Motion(turretAngle, 120.0), PlayerOwner(p.id), now)]
        && r'.players == r.players[i := UsedProjectile(p)]
        && r'.nextId == r.nextId + 1
        && r' == r.(projectiles := r'.projectiles, players := r'.players, nextId := r'.nextId)
      else r' == r
  {
    var p := r.players[i];
    if p.alive && Owned(r.projectiles, p.id) < 5 then
      var shot := Fire(p.weapon, r.nextId, FromCondensed(position, now), Motion(turretAngle, 120.0),
        PlayerOwner(p.id), now);
      r.(projectiles := r.projectiles + [shot], players := r.players[i := UsedProjectile(p)], nextId := r.nextId + 1)
    else r
  }

  /** Shooting never takes a player past five projectiles of its own, and leaves every other player's count as it
      was. */
  lemma ShootKeepsCap(r: Round, i: nat, position: CondensedPosition, turretAngle: real, now: int, id: nat)
    requires i < |r.players|
    ensures var r' := Shoot(r, i, position, turretAngle, now);
      && (Owned(r.projectiles, id) <= 5 ==> Owned(r'.projectiles, id) <= 5)
      && (id != r.players[i].id ==> Owned(r'.projectiles, id) == Owned(r.projectiles, id))
      && Owned(r'.projectiles, r.players[i].id) <= Owned(r.projectiles, r.players[i].id) + 1
  {
    var p := r.players[i];
    if p.alive && Owned(r.projectiles, p.id) < 5 {
      var shot := Fire(p.weapon, r.nextId, FromCondensed(position, now), Motion(turretAngle, 120.0),
        PlayerOwner(p.id), now);
      OwnedAppend(r.projectiles, shot, id);
      OwnedAppend(r.projectiles, shot, p.id);
    }
  }

  /** A shot takes the next fresh id and moves the counter past it, so ids stay unique and fresh. */
  lemma ShootKeepsIds(r: Round, i: nat, position: CondensedPosition, turretAngle: real, now: int)
    requires i < |r.players|
    ensures var r' := Shoot(r, i, position, turretAngle, now);
      && r.nextId <= r'.nextId
      && (UniqueIds(r.projectiles) && IdsBelow(r.projectiles, r.nextId) ==>
            UniqueIds(r'.projectiles) && IdsBelow(r'.projectiles, r'.nextId))
  {
  }

  /** The handler of one player's `events` message: its entries in order. */
  function HandleEvents(r: Round, i: nat, events: seq<Event>, now: int): (r': Round)
    requires i < |r.players|
    ensures |r'.players| == |r.players|
    ensures r'.gameCode == r.gameCode && r'.roundNumber == r.roundNumber && r'.maze == r.maze
      && r'.walls == r.walls && r'.powerups == r.powerups && r'.failsafeArmed == r.failsafeArmed
    ensures forall k :: 0 <= k < |r.players| && k != i ==> r'.players[k] == r.players[k]
    ensures forall id: nat :: Owned(r.projectiles, id) <= 5 ==> Owned(r'.projectiles, id) <= 5
    ensures r.nextId <= r'.nextId
    ensures UniqueIds(r.projectiles) && IdsBelow(r.projectiles, r.nextId) ==>
      UniqueIds(r'.projectiles) && IdsBelow(r'.projectiles, r'.nextId)
    decreases |events|
  {
    if events == [] then r
    else
      var r1 := match events[0]
        case MoveEvent(pos, body, turret) => Move(r, i, pos, body, turret, now)
        case ShootEvent(pos, turret) => Shoot(r, i, pos, turret, now)
        case OtherEvent => r;
      assert forall id: nat :: Owned(r.projectiles, id) <= 5 ==> Owned(r1.projectiles, id) <= 5 by {
        forall id: nat | Owned(r.projectiles, id) <= 5
          ensures Owned(r1.projectiles, id) <= 5
        {
          if events[0].ShootEvent? {
            ShootKeepsCap(r, i, events[0].position, events[0].turretAngle, now, id);
          }
        }
      }
      assert r.nextId <= r1.nextId && (UniqueIds(r.projectiles) && IdsBelow(r.projectiles, r.nextId) ==>
        UniqueIds(r1.projectiles) && IdsBelow(r1.projectiles, r1.nextId)) by {
        if events[0].ShootEvent? {
          ShootKeepsIds(r, i, events[0].position, events[0].turretAngle, now);
        }
      }
      HandleEvents(r1, i, events[1..], now)
  }

  // ---------------------------------------------------------------------------
  // The tick

  /** The fragments a projectile can still spawn in one update: five for an air-burst shell, 24 for a mine. */
  function Potential(p: Projectile): nat
  {
    match p.kind
    case Burster => 5
    case LandMine(_) => 24
    case _ => 0
  }

  /** The same players in the same order, with the same ids, names and scores. */
  predicate SamePeople(a: seq<Player>, b: seq<Player>)
  {
    && |a| == |b|
    && forall k :: 0 <= k < |a| ==> a[k].id == b[k].id && a[k].name == b[k].name && a[k].score == b[k].score
  }

  /** The players qs are ps changed only by deaths: each keeps everything but `alive`, and nobody comes back. */
  predicate OnlyDie(qs: seq<Player>, ps: seq<Player>)
  {
    && |qs| == |ps|
    && forall k :: 0 <= k < |qs| ==> qs[k] == ps[k].(alive := qs[k].alive) && (qs[k].alive ==> ps[k].alive)
  }

  /** Projectile.update and the override of its class, for every class but the rocket: the base update, then
      the shell's burst or the mine's arming and explosion. */
  function ClassStep(m: Maze, phys: Physics, ps: seq<Player>, p: Projectile, now: int, nextId: nat): (r: Step)
    requires !p.kind.Homing?
    ensures r.self.id == p.id && r.self.owner == p.owner && |r.players| == |ps| && |r.spawned| <= Potential(p)
    ensures SamePeople(r.players, ps)
    ensures r.players == BaseUpdate(m, phys, ps, p, now).players && OnlyDie(r.players, ps)
    ensures Expired(p, now) ==> r.removals >= 1
    ensures forall k :: 0 <= k < |r.spawned| ==>
      && r.spawned[k].id == nextId + k && r.spawned[k].kind == Plain
      && r.spawned[k].owner == ProjectileOwner(p.id)
  {
    var base := BaseUpdate(m, phys, ps, p, now);
    match p.kind
    case Burster => BurstStep(base, now, nextId)
    case LandMine(_) => MineStep(base, now, nextId)
    case _ => base
  }

  /** Projectile.update and the override of its class. */
  method UpdateProjectile(pol: Removal, m: Maze, phys: Physics, ps: seq<Player>, p: Projectile, now: int,
    nextId: nat) returns (o: Outcome)
    requires Valid(m)
    ensures !p.kind.Homing? ==> o.Done?
    ensures o.Done? ==>
      && o.step.self.id == p.id && |o.step.players| == |ps| && |o.step.spawned| <= Potential(p)
      && (Expired(p, now) ==> o.step.removals >= 1)
      && forall k :: 0 <= k < |o.step.spawned| ==>
        o.step.spawned[k].id == nextId + k && o.step.spawned[k].kind == Plain
    ensures o.Done? ==>
      && o.step.self.owner == p.owner
      && forall k :: 0 <= k < |o.step.spawned| ==> o.step.spawned[k].owner == ProjectileOwner(p.id)
    ensures o.Done? ==> SamePeople(o.step.players, ps) && OnlyDie(o.step.players, ps)
    ensures !p.kind.Homing? ==> o == Done(ClassStep(m, phys, ps, p, now, nextId))
    ensures o.Done? ==> Updates(m, phys, now, ps, p, nextId, o.step)
  {
    if p.kind.Homing? {
      o := HomingStep(pol, m, phys, ps, p, now);
    } else {
      o := Done(ClassStep(m, phys, ps, p, now, nextId));
    }
  }

  /** A rocket's update: the base update, then the lock and the route; a rocket never spawns. */
  method HomingStep(pol: Removal, m: Maze, phys: Physics, ps: seq<Player>, p: Projectile, now: int)
    returns (o: Outcome)
    requires Valid(m) && p.kind.Homing?
    ensures o.Done? ==>
      && o.step.self.id == p.id && o.step.self.owner == p.owner && |o.step.players| == |ps| && o.step.spawned == []
      && (Expired(p, now) ==> o.step.removals >= 1)
    ensures o.Done? ==> SamePeople(o.step.players, ps)
    ensures o.Done? ==> HomingOk(m, phys, ps, p, now, o.step)
  {
    o := RocketStep(pol, m, phys, BaseUpdate(m, phys, ps, p, now), now);
  }

  /** What the walk relies on of a rocket's update: its id and owner kept, the base update's hits, no fragments,
      and its own removal once expired. Which way it then steers does not matter to the walk. */
  predicate HomingOk(m: Maze, phys: Physics, ps: seq<Player>, p: Projectile, now: int, st: Step)
  {
    && st.self.id == p.id && st.self.owner == p.owner && st.spawned == []
    && st.players == BaseUpdate(m, phys, ps, p, now).players
    && (Expired(p, now) ==> st.removals >= 1)
  }

  /** st is an update projectile p makes against the players ps with n the next fresh id: exactly its class step,
      or for a rocket one that HomingOk allows. */
  predicate Updates(m: Maze, phys: Physics, now: int, ps: seq<Player>, p: Projectile, n: nat, st: Step)
  {
    if p.kind.Homing? then HomingOk(m, phys, ps, p, now, st) else st == ClassStep(m, phys, ps, p, now, n)
  }

  /** What every update promises the walk: id and owner kept, the players changed only by the base update's
      hits, an expired projectile spliced out, and fresh fragment ids. */
  lemma UpdatesFacts(m: Maze, phys: Physics, now: int, ps: seq<Player>, p: Projectile, n: nat, st: Step)
    requires Updates(m, phys, now, ps, p, n, st)
    ensures st.self.id == p.id && st.self.owner == p.owner && |st.spawned| <= Potential(p)
    ensures st.players == BaseUpdate(m, phys, ps, p, now).players && OnlyDie(st.players, ps)
    ensures Expired(p, now) ==> st.removals >= 1
    ensures forall k :: 0 <= k < |st.spawned| ==>
      && st.spawned[k].id == n + k && st.spawned[k].kind == Plain && st.spawned[k].owner == ProjectileOwner(p.id)
  {
  }

  /** An update's effect on the live list: its self-removals, its own changes if it is still there, and the
      fragments appended. */
  function Apply(pol: Removal, s: seq<Projectile>, st: Step): seq<Projectile>
  {
    WriteBack(RemoveN(pol, s, st.self.id, st.removals), st.self) + st.spawned
  }

  /** The work left in a stretch of the list: one update per projectile plus the fragments it can still spawn. */
  function Weight(s: seq<Projectile>): nat
    decreases |s|
  {
    if s == [] then 0 else 1 + Potential(s[0]) + Weight(s[1..])
  }

  /** The list from index i on (empty once i is past the end). */
  function Tail(s: seq<Projectile>, i: nat): seq<Projectile>
  {
    if i <= |s| then s[i..] else []
  }

  lemma {:induction false} WeightAppend(a: seq<Projectile>, b: seq<Projectile>)
    ensures Weight(a + b) == Weight(a) + Weight(b)
    decreases |a|
  {
    if a != [] {
      assert (a + b)[1..] == a[1..] + b;
      WeightAppend(a[1..], b);
    } else {
      assert a + b == b;
    }
  }

  /** Fragments weigh one each. */
  lemma {:induction false} PlainWeight(s: seq<Projectile>)
    requires forall k :: 0 <= k < |s| ==> s[k].kind == Plain
    ensures Weight(s) == |s|
    decreases |s|
  {
    if s != [] {
      PlainWeight(s[1..]);
    }
  }

  /** Taking one element out of a list never adds work to any of its tails. */
  lemma DropTail(u: seq<Projectile>, x: nat, j: nat)
    requires x < |u|
    ensures Weight(Tail(u[..x] + u[x + 1..], j)) <= Weight(Tail(u, j))
  {
    var v := u[..x] + u[x + 1..];
    if j <= x {
      assert v[j..] == u[j..x] + u[x + 1..];
      assert u[j..] == u[j..x] + ([u[x]] + u[x + 1..]);
      WeightAppend(u[j..x], u[x + 1..]);
      WeightAppend(u[j..x], [u[x]] + u[x + 1..]);
      WeightAppend([u[x]], u[x + 1..]);
    } else if j <= |v| {
      assert v[j..] == u[j + 1..];
      assert u[j..] == [u[j]] + u[j + 1..];
      WeightAppend([u[j]], u[j + 1..]);
    }
  }

  lemma {:induction false} RemoveNTail(pol: Removal, u: seq<Projectile>, id: nat, n: nat, j: nat)
    ensures Weight(Tail(RemoveN(pol, u, id, n), j)) <= Weight(Tail(u, j))
    decreases n
  {
    if n > 0 {
      var v, m := RemoveSelf(pol, u, id), n - 1;
      assert RemoveN(pol, u, id, n) == RemoveN(pol, v, id, m);
      RemoveSelfTail(pol, u, id, j);
      RemoveNTail(pol, v, id, m, j);
    }
  }

  /** One self-removal never adds work to any tail. */
  lemma RemoveSelfTail(pol: Removal, u: seq<Projectile>, id: nat, j: nat)
    ensures Weight(Tail(RemoveSelf(pol, u, id), j)) <= Weight(Tail(u, j))
  {
    RemoveSelfDrops(pol, u, id);
    var x := RemovedAt(pol, u, id);
    if x >= 0 {
      DropTail(u, x, j);
    }
  }

  /** Moving the start of a tail one step on never adds work, and appending adds at most the appended work. */
  lemma TailBounds(u: seq<Projectile>, sp: seq<Projectile>, j: nat)
    ensures Weight(Tail(u, j + 1)) <= Weight(Tail(u, j))
    ensures Weight(Tail(u + sp, j)) <= Weight(Tail(u, j)) + Weight(sp)
  {
    if j < |u| {
      assert u[j..] == [u[j]] + u[j + 1..];
      WeightAppend([u[j]], u[j + 1..]);
    }
    if j <= |u| {
      assert (u + sp)[j..] == u[j..] + sp;
      WeightAppend(u[j..], sp);
    } else if j <= |u| + |sp| {
      var d := j - |u|;
      assert (u + sp)[j..] == sp[d..];
      assert sp == sp[..d] + sp[d..];
      WeightAppend(sp[..d], sp[d..]);
    }
  }

  /** Processing the projectile at index i leaves less work from index i + 1 than there was from index i: the
      update removes itself (and possibly others) or stays behind index i, and spawns no more fragments than its
      potential. This is why the tick's walk over the live list ends. */
  lemma ApplyShrinks(pol: Removal, s: seq<Projectile>, i: nat, st: Step)
    requires UniqueIds(s) && i < |s| && st.self.id == s[i].id && |st.spawned| <= Potential(s[i])
    requires forall k :: 0 <= k < |st.spawned| ==> st.spawned[k].kind == Plain
    ensures Weight(Tail(Apply(pol, s, st), i + 1)) < Weight(Tail(s, i))
  {
    PlainWeight(st.spawned);
    assert s[i..] == [s[i]] + s[i + 1..];
    WeightAppend([s[i]], s[i + 1..]);
    if st.removals == 0 {
      StayingShrinks(s, i, st.self, st.spawned);
    } else {
      LeavingShrinks(pol, s, i, st.self, st.removals, st.spawned);
    }
  }

  /** The projectile stays at index i: what follows it is the old rest plus the fragments. */
  lemma StayingShrinks(s: seq<Projectile>, i: nat, self: Projectile, sp: seq<Projectile>)
    requires UniqueIds(s) && i < |s| && self.id == s[i].id
    ensures Weight(Tail(WriteBack(s, self) + sp, i + 1)) == Weight(s[i + 1..]) + Weight(sp)
  {
    assert IndexOf(s, self.id) == i;
    var w := s[i := self];
    assert WriteBack(s, self) == w;
    assert (w + sp)[i + 1..] == s[i + 1..] + sp;
    WeightAppend(s[i + 1..], sp);
  }

  /** The projectile splices itself out: from index i on there is at most the old rest plus the fragments. */
  lemma LeavingShrinks(pol: Removal, s: seq<Projectile>, i: nat, self: Projectile, n: nat, sp: seq<Projectile>)
    requires UniqueIds(s) && i < |s| && self.id == s[i].id && n >= 1
    ensures Weight(Tail(WriteBack(RemoveN(pol, s, self.id, n), self) + sp, i + 1))
      <= Weight(s[i + 1..]) + Weight(sp)
  {
    var r := RemoveN(pol, s, self.id, n);
    RemovedSelfTail(pol, s, i, n);
    assert WriteBack(r, self) == r;
    TailBounds(r, sp, i);
    TailBounds(r + sp, [], i);
  }

  /** After splicing itself out, the projectile is gone and the list from index i on weighs no more than what
      followed it. */
  lemma RemovedSelfTail(pol: Removal, s: seq<Projectile>, i: nat, n: nat)
    requires UniqueIds(s) && i < |s| && n >= 1
    ensures IndexOf(RemoveN(pol, s, s[i].id, n), s[i].id) == -1
    ensures Weight(Tail(RemoveN(pol, s, s[i].id, n), i)) <= Weight(s[i + 1..])
  {
    var id, t, m := s[i].id, s[..i] + s[i + 1..], n - 1;
    FirstRemoval(pol, s, i, n);
    assert RemoveN(pol, s, id, n) == RemoveN(pol, t, id, m);
    RemoveNKeepsGone(pol, t, id, m, id);
    RemoveNTail(pol, t, id, m, i);
    TailAfterDrop(s, i);
  }

  /** The first of the removals takes out exactly the projectile, which is then gone. */
  lemma FirstRemoval(pol: Removal, s: seq<Projectile>, i: nat, n: nat)
    requires UniqueIds(s) && i < |s| && n >= 1
    ensures RemoveN(pol, s, s[i].id, n) == RemoveN(pol, s[..i] + s[i + 1..], s[i].id, n - 1)
    ensures IndexOf(s[..i] + s[i + 1..], s[i].id) == -1
  {
    RemovePresent(pol, s, i);
  }

  lemma TailAfterDrop(s: seq<Projectile>, i: nat)
    requires i < |s|
    ensures Tail(s[..i] + s[i + 1..], i) == s[i + 1..]
  {
    assert (s[..i] + s[i + 1..])[i..] == s[i + 1..];
  }

  /** An update that splices its projectile out once moves the next projectile down into its slot, so the walk,
      which goes on at the following index, does not update that projectile in this tick. */
  lemma SpliceSkipsNext(pol: Removal, s: seq<Projectile>, i: nat, st: Step)
    requires UniqueIds(s) && i + 1 < |s| && st.self.id == s[i].id && st.removals == 1
    ensures Apply(pol, s, st)[i] == s[i + 1]
    ensures Tail(Apply(pol, s, st), i + 1) == s[i + 2..] + st.spawned
  {
    var t := s[..i] + s[i + 1..];
    FirstRemoval(pol, s, i, 1);
    assert RemoveN(pol, s, s[i].id, 1) == t;
    assert WriteBack(t, st.self) == t;
    assert (t + st.spawned)[i + 1..] == s[i + 2..] + st.spawned;
  }

  /** The update keeps ids unique and below the next fresh id, once that has moved past the fragments. */
  lemma ApplyKeepsIds(pol: Removal, s: seq<Projectile>, i: nat, st: Step, nextId: nat)
    requires UniqueIds(s) && IdsBelow(s, nextId) && i < |s| && st.self.id == s[i].id
    requires forall k :: 0 <= k < |st.spawned| ==> st.spawned[k].id == nextId + k
    ensures UniqueIds(Apply(pol, s, st)) && IdsBelow(Apply(pol, s, st), nextId + |st.spawned|)
  {
    var r := RemoveN(pol, s, st.self.id, st.removals);
    RemoveNKeepsIds(pol, r, st.self.id, 0, nextId);
    RemoveNKeepsIds(pol, s, st.self.id, st.removals, nextId);
    var w := WriteBack(r, st.self);
    var x := IndexOf(r, st.self.id);
    assert forall k :: 0 <= k < |w| ==> w[k].id == r[k].id;
    var a := w + st.spawned;
    forall j, k | 0 <= j < k < |a|
      ensures a[j].id != a[k].id
    {
      if k < |w| {
        assert a[j].id == r[j].id && a[k].id == r[k].id;
      } else if j < |w| {
        assert a[j].id == r[j].id;
      }
    }
  }

  /** Deaths after deaths are deaths. */
  lemma OnlyDieTrans(a: seq<Player>, b: seq<Player>, c: seq<Player>)
    requires OnlyDie(a, b) && OnlyDie(b, c)
    ensures OnlyDie(a, c)
  {
  }

  /** Where the tick's walk stands: the live list, the players and the next fresh id. */
  datatype Walk = Walk(list: seq<Projectile>, players: seq<Player>, nextId: nat)

  /** The walk from w after the given updates, each applied to the list as the earlier ones left it. */
  function Replay(pol: Removal, w: Walk, steps: seq<Step>): Walk
    decreases |steps|
  {
    if steps == [] then w
    else
      var v := Replay(pol, w, steps[..|steps| - 1]);
      var st := steps[|steps| - 1];
      Walk(Apply(pol, v.list, st), st.players, v.nextId + |st.spawned|)
  }

  /** steps is a walk over the live list from w: step j updates the projectile at index j of the list as the
      steps before it left it, against the players as they left them. */
  predicate Walked(pol: Removal, m: Maze, phys: Physics, now: int, w: Walk, steps: seq<Step>)
    decreases |steps|
  {
    || steps == []
    || var pre := steps[..|steps| - 1];
       var v := Replay(pol, w, pre);
       && Walked(pol, m, phys, now, w, pre)
       && |pre| < |v.list|
       && Updates(m, phys, now, v.players, v.list[|pre|], v.nextId, steps[|steps| - 1])
  }

  /** A walk goes on by one update of the projectile at the index it has reached. */
  lemma WalkExtends(pol: Removal, m: Maze, phys: Physics, now: int, w: Walk, steps: seq<Step>, st: Step)
    requires Walked(pol, m, phys, now, w, steps)
    requires var v := Replay(pol, w, steps);
      |steps| < |v.list| && Updates(m, phys, now, v.players, v.list[|steps|], v.nextId, st)
    ensures Walked(pol, m, phys, now, w, steps + [st])
    ensures var v := Replay(pol, w, steps);
      Replay(pol, w, steps + [st]) == Walk(Apply(pol, v.list, st), st.players, v.nextId + |st.spawned|)
  {
    assert (steps + [st])[..|steps|] == steps;
  }

  /** What the walk's id bookkeeping needs of an update of p with n the next fresh id: the same id, a removal
      once expired, and fragment ids counting up from n. */
  predicate Shaped(p: Projectile, n: nat, now: int, st: Step)
  {
    && st.self.id == p.id && (Expired(p, now) ==> st.removals >= 1)
    && forall k :: 0 <= k < |st.spawned| ==> st.spawned[k].id == n + k
  }

  /** A walk as far as ids go: every step is Shaped for the projectile at its index. */
  predicate Chained(pol: Removal, now: int, w: Walk, steps: seq<Step>)
    decreases |steps|
  {
    || steps == []
    || var pre := steps[..|steps| - 1];
       var v := Replay(pol, w, pre);
       Chained(pol, now, w, pre) && |pre| < |v.list| && Shaped(v.list[|pre|], v.nextId, now, steps[|steps| - 1])
  }

  /** Every walk is a chain. */
  lemma {:induction false} WalkedChained(pol: Removal, m: Maze, phys: Physics, now: int, w: Walk, steps: seq<Step>)
    requires Walked(pol, m, phys, now, w, steps)
    ensures Chained(pol, now, w, steps)
    decreases |steps|
  {
    if steps != [] {
      var pre := steps[..|steps| - 1];
      var v := Replay(pol, w, pre);
      WalkedChained(pol, m, phys, now, w, pre);
      UpdatesFacts(m, phys, now, v.players, v.list[|pre|], v.nextId, steps[|steps| - 1]);
    }
  }

  /** A walk keeps ids unique and below the next fresh id, which only grows. */
  lemma {:induction false} ReplayKeepsIds(pol: Removal, now: int, w: Walk, steps: seq<Step>)
    requires UniqueIds(w.list) && IdsBelow(w.list, w.nextId) && Chained(pol, now, w, steps)
    ensures var v := Replay(pol, w, steps);
      UniqueIds(v.list) && IdsBelow(v.list, v.nextId) && w.nextId <= v.nextId
    decreases |steps|
  {
    if steps != [] {
      var pre := steps[..|steps| - 1];
      var v := Replay(pol, w, pre);
      ReplayKeepsIds(pol, now, w, pre);
      ApplyKeepsIds(pol, v.list, |pre|, steps[|steps| - 1], v.nextId);
    }
  }

  /** Writing the projectile back and appending fresh fragments brings back no id that is gone and below the
      fragments' ids. */
  lemma WriteBackKeepsGone(r: seq<Projectile>, self: Projectile, sp: seq<Projectile>, n: nat, gone: nat)
    requires IndexOf(r, gone) == -1 && gone < n
    requires forall k :: 0 <= k < |sp| ==> sp[k].id == n + k
    ensures IndexOf(WriteBack(r, self) + sp, gone) == -1
  {
    var w := WriteBack(r, self);
    var a := w + sp;
    forall k | 0 <= k < |a|
      ensures a[k].id != gone
    {
      if k < |w| {
        assert a[k] == w[k];
      } else {
        assert a[k] == sp[k - |w|];
      }
    }
  }

  /** An update never brings back an id that is gone and below the next fresh id. */
  lemma ApplyKeepsGone(pol: Removal, s: seq<Projectile>, st: Step, n: nat, gone: nat)
    requires IndexOf(s, gone) == -1 && gone < n
    requires forall k :: 0 <= k < |st.spawned| ==> st.spawned[k].id == n + k
    ensures IndexOf(Apply(pol, s, st), gone) == -1
  {
    RemoveNKeepsGone(pol, s, st.self.id, st.removals, gone);
    WriteBackKeepsGone(RemoveN(pol, s, st.self.id, st.removals), st.self, st.spawned, n, gone);
  }

  /** The update of the projectile at index j splices it out for good once it removes itself at least once. */
  lemma RemovedStaysOut(pol: Removal, s: seq<Projectile>, j: nat, st: Step, n: nat)
    requires UniqueIds(s) && j < |s| && st.self.id == s[j].id && st.removals >= 1
    requires IdsBelow(s, n) && forall k :: 0 <= k < |st.spawned| ==> st.spawned[k].id == n + k
    ensures IndexOf(Apply(pol, s, st), s[j].id) == -1
  {
    RemovedSelfTail(pol, s, j, st.removals);
    WriteBackKeepsGone(RemoveN(pol, s, st.self.id, st.removals), st.self, st.spawned, n, s[j].id);
  }

  lemma PrefixOfPrefix<T>(s: seq<T>, n: nat, j: nat)
    requires j <= n <= |s|
    ensures s[..n][..j] == s[..j]
  {
  }

  /** Every prefix of a chain is a chain. */
  lemma {:induction false} ChainedPrefix(pol: Removal, now: int, w: Walk, steps: seq<Step>, k: nat)
    requires Chained(pol, now, w, steps) && k <= |steps|
    ensures Chained(pol, now, w, steps[..k])
    decreases |steps|
  {
    if k < |steps| {
      PrefixOfPrefix(steps, |steps| - 1, k);
      ChainedPrefix(pol, now, w, steps[..|steps| - 1], k);
    } else {
      assert steps[..k] == steps;
    }
  }

  /** The last step of a chain updates a projectile of the list before it, and splices it out for good when it is
      expired. */
  lemma LastGone(pol: Removal, now: int, w: Walk, steps: seq<Step>)
    requires UniqueIds(w.list) && IdsBelow(w.list, w.nextId) && Chained(pol, now, w, steps) && steps != []
    ensures var pre := steps[..|steps| - 1];
      var u := Replay(pol, w, pre);
      && |pre| < |u.list| && u.list[|pre|].id < Replay(pol, w, steps).nextId
      && (Expired(u.list[|pre|], now) ==> IndexOf(Replay(pol, w, steps).list, u.list[|pre|].id) == -1)
  {
    var pre := steps[..|steps| - 1];
    var u := Replay(pol, w, pre);
    ReplayKeepsIds(pol, now, w, pre);
    if Expired(u.list[|pre|], now) {
      RemovedStaysOut(pol, u.list, |pre|, steps[|steps| - 1], u.nextId);
    }
  }

  /** An id that is gone, and below the next fresh id, after the first k steps of a chain stays gone. */
  lemma {:induction false} StaysGone(pol: Removal, now: int, w: Walk, steps: seq<Step>, k: nat, id: nat)
    requires Chained(pol, now, w, steps) && k <= |steps|
    requires IndexOf(Replay(pol, w, steps[..k]).list, id) == -1 && id < Replay(pol, w, steps[..k]).nextId
    ensures IndexOf(Replay(pol, w, steps).list, id) == -1 && id < Replay(pol, w, steps).nextId
    decreases |steps|
  {
    if k == |steps| {
      assert steps[..k] == steps;
    } else {
      var pre := steps[..|steps| - 1];
      PrefixOfPrefix(steps, |steps| - 1, k);
      StaysGone(pol, now, w, pre, k, id);
      var u := Replay(pol, w, pre);
      ApplyKeepsGone(pol, u.list, steps[|steps| - 1], u.nextId, id);
    }
  }

  /** A projectile that is expired when the walk reaches it is gone from the list for the rest of the walk, under
      either removal policy. */
  lemma ReachedExpiredGone(pol: Removal, now: int, w: Walk, steps: seq<Step>, j: nat)
    requires UniqueIds(w.list) && IdsBelow(w.list, w.nextId)
    requires Chained(pol, now, w, steps) && j < |steps|
    ensures var v := Replay(pol, w, steps[..j]);
      j < |v.list| && (Expired(v.list[j], now) ==> IndexOf(Replay(pol, w, steps).list, v.list[j].id) == -1)
  {
    var s := steps[..j + 1];
    ChainedPrefix(pol, now, w, steps, j + 1);
    PrefixOfPrefix(steps, j + 1, j);
    assert s[..|s| - 1] == steps[..j];
    LastGone(pol, now, w, s);
    var v := Replay(pol, w, steps[..j]);
    if Expired(v.list[j], now) {
      StaysGone(pol, now, w, steps, j + 1, v.list[j].id);
    }
  }

  /** The walk that UpdateAll makes removes every projectile that is expired when the walk reaches it. */
  lemma WalkRemovesExpired(pol: Removal, m: Maze, phys: Physics, now: int, w: Walk, steps: seq<Step>, j: nat)
    requires UniqueIds(w.list) && IdsBelow(w.list, w.nextId)
    requires Walked(pol, m, phys, now, w, steps) && j < |steps|
    ensures var v := Replay(pol, w, steps[..j]);
      j < |v.list| && (Expired(v.list[j], now) ==> IndexOf(Replay(pol, w, steps).list, v.list[j].id) == -1)
  {
    WalkedChained(pol, m, phys, now, w, steps);
    ReachedExpiredGone(pol, now, w, steps, j);
  }

  /** Nobody is alive. */
  predicate NoneAlive(ps: seq<Player>)
  {
    forall k :: 0 <= k < |ps| ==> !ps[k].alive
  }

  /** What a tick sends out besides the round it may start: the arming of the failsafe timer and the state
      broadcast. */
  datatype Signal = ArmFailsafe | RoundUpdate(state: CondensedRound)

  /** The signal sent last. */
  function LastSignal(signals: seq<Signal>): Signal
    requires |signals| >= 1
  {
    signals[|signals| - 1]
  }

  /** What `Game.getGameByCode(gameCode)` finds when the tick asks for the next round: no game, or the game with
      its size, if it has one. */
  datatype Registry = Unregistered | Registered(gameSize: Option<nat>)

  /** The number of cells of a round's grid for the game's size. */
  function CellCount(gameSize: Option<nat>): nat
  {
    Height(MapSize(gameSize)) * Width(MapSize(gameSize))
  }

  /** n is a round that game.newRound started after round r, for the players ps: the next number, a connected
      maze of the game's size at scale 100 with its walls, nothing in flight, and the players placed in it. */
  ghost predicate Started(n: Round, r: Round, ps: seq<Player>, gameSize: Option<nat>)
  {
    StartedRound(n, r, gameSize) && PlacedIn(n.players, n.maze, ps)
  }

  ghost predicate StartedRound(n: Round, r: Round, gameSize: Option<nat>)
  {
    && n.gameCode == r.gameCode && n.roundNumber == r.roundNumber + 1
    && n.maze.height == Height(MapSize(gameSize)) && n.maze.width == Width(MapSize(gameSize)) && n.maze.scale == 100
    && Valid(n.maze) && Connected(n.maze.connected) && n.walls == NewWallManager(n.maze)
    && n.projectiles == [] && n.powerups == [] && !n.failsafeArmed && n.nextId == 0
  }

  /** The players qs are ps placed in maze m: the same people, every one alive in a cell of m, no two at one
      position. */
  predicate PlacedIn(qs: seq<Player>, m: Maze, ps: seq<Player>)
  {
    && SamePeople(qs, ps)
    && (forall j, k :: 0 <= j < k < |qs| ==> qs[j].position != qs[k].position)
    && forall k :: 0 <= k < |qs| ==> qs[k].alive && GetNodeFromPos(m, qs[k].position).Some?
  }

  /** `game.newRound(roundNumber + 1)` from a tick in which nobody is alive: nothing when the game is gone;
      otherwise endRound (no point, as nobody is alive) and a new round on the very same player objects, which
      places, revives and re-arms them with the bullet. The placement never ends when the players outnumber the
      cells. */
  method Restart(r: Round, players: seq<Player>, game: Registry, openDraw: real, now: int)
    returns (placed: seq<Player>, started: Option<Round>, hung: bool)
    requires NoneAlive(players) && 0.0 <= openDraw < 1.0
    ensures hung <==> game.Registered? && |players| > CellCount(game.gameSize)
    ensures started.Some? <==> game.Registered? && !hung
    ensures started.None? ==> placed == players
    ensures started.Some? ==>
      && Started(started.value, r, players, game.gameSize) && placed == started.value.players
      && forall k :: 0 <= k < |placed| ==> placed[k].weapon == Bullet && placed[k].uses == 0
  {
    if game.Unregistered? {
      return players, None, false;
    }
    if |players| > CellCount(game.gameSize) {
      return players, None, true;
    }
    var ended := EndRound(r.(players := players));
    var begun := NewRound(r.gameCode, ended.players, r.roundNumber + 1, game.gameSize, openDraw, now);
    return begun.players, Some(begun), false;
  }

  /** Whether a tick arms the 500 s failsafe, given that nobody is alive (down), that game.newRound started the
      next round (restarted), and that it is armed already. As written the timeout is set after the restart, whose
      endRound was the only place clearing it, so it outlives the round; corrected, it is set only for a round
      that nothing replaced. */
  predicate ArmsFailsafe(pol: Removal, down: bool, restarted: bool, armed: bool)
  {
    down && !armed && (pol == AsWritten || !restarted)
  }

  /** As written, the tick that starts the next round still arms the failsafe of the round just ended. */
  lemma FailsafeOutlivesRound(armed: bool)
    requires !armed
    ensures ArmsFailsafe(AsWritten, true, true, armed)
  {
  }

  /** Corrected, the failsafe is armed exactly on the first tick with nobody alive of a round that no new round
      replaced. */
  lemma FailsafeOnlyUnreplaced(down: bool, restarted: bool, armed: bool)
    ensures ArmsFailsafe(Corrected, down, restarted, armed) <==> down && !armed && !restarted
    ensures ArmsFailsafe(Corrected, down, restarted, armed) ==> ArmsFailsafe(AsWritten, down, restarted, armed)
  {
  }

  /** Where the walk over the live list stands after the steps so far: the list, the players and the next id
      are the replay of the steps, which are a walk from the round's own; ids stay unique and below the next
      id, players only die, and nobody owns more projectiles than at the start. */
  ghost predicate Walking(pol: Removal, r: Round, phys: Physics, now: int, list: seq<Projectile>,
    players: seq<Player>, nextId: nat, steps: seq<Step>)
  {
    && UniqueIds(list) && IdsBelow(list, nextId) && r.nextId <= nextId
    && |players| == |r.players| && SamePeople(players, r.players) && OnlyDie(players, r.players)
    && (forall id: nat :: Owned(list, id) <= Owned(r.projectiles, id))
    && Walked(pol, r.maze, phys, now, Walk(r.projectiles, r.players, r.nextId), steps)
    && Replay(pol, Walk(r.projectiles, r.players, r.nextId), steps) == Walk(list, players, nextId)
  }

  /** One step of the walk: update the projectile at the index the walk has reached and apply its step. */
  method WalkOne(pol: Removal, r: Round, phys: Physics, now: int, list: seq<Projectile>, players: seq<Player>,
    nextId: nat, i: nat, ghost steps: seq<Step>)
    returns (list': seq<Projectile>, players': seq<Player>, nextId': nat, crashed: bool, ghost steps': seq<Step>)
    requires Valid(r.maze) && r.maze.height >= 1 && r.maze.width >= 1
    requires Walking(pol, r, phys, now, list, players, nextId, steps) && i == |steps| < |list|
    ensures crashed ==> list' == list && players' == players && nextId' == nextId && steps' == steps
    ensures !crashed ==>
      && Walking(pol, r, phys, now, list', players', nextId', steps') && |steps'| == i + 1
      && Weight(Tail(list', i + 1)) < Weight(Tail(list, i))
  {
    var o := UpdateProjectile(pol, r.maze, phys, players, list[i], now, nextId);
    if !o.Done? {
      return list, players, nextId, true, steps;
    }
    var st := o.step;
    WalkingGoesOn(pol, r, phys, now, list, players, nextId, steps, st);
    list', players', nextId', crashed, steps' := Apply(pol, list, st), st.players, nextId + |st.spawned|, false, steps + [st];
  }

  /** An update of the projectile the walk has reached keeps the walk's bookkeeping and shrinks what is left of
      the list. */
  lemma WalkingGoesOn(pol: Removal, r: Round, phys: Physics, now: int, list: seq<Projectile>, players: seq<Player>,
    nextId: nat, steps: seq<Step>, st: Step)
    requires Walking(pol, r, phys, now, list, players, nextId, steps) && |steps| < |list|
    requires Updates(r.maze, phys, now, players, list[|steps|], nextId, st)
    ensures Walking(pol, r, phys, now, Apply(pol, list, st), st.players, nextId + |st.spawned|, steps + [st])
    ensures Weight(Tail(Apply(pol, list, st), |steps| + 1)) < Weight(Tail(list, |steps|))
  {
    UpdatesFacts(r.maze, phys, now, players, list[|steps|], nextId, st);
    WalkExtends(pol, r.maze, phys, now, Walk(r.projectiles, r.players, r.nextId), steps, st);
    OnlyDieTrans(st.players, players, r.players);
    ApplyKeepsBooks(pol, list, |steps|, st, nextId);
  }

  /** Applying a step with the walk's id bookkeeping keeps ids unique and below the next id, owns nothing new
      and shrinks what is left of the list. */
  lemma ApplyKeepsBooks(pol: Removal, list: seq<Projectile>, i: nat, st: Step, nextId: nat)
    requires UniqueIds(list) && IdsBelow(list, nextId) && i < |list|
    requires st.self.id == list[i].id && st.self.owner == list[i].owner && |st.spawned| <= Potential(list[i])
    requires forall k :: 0 <= k < |st.spawned| ==>
      && st.spawned[k].id == nextId + k && st.spawned[k].kind == Plain && st.spawned[k].owner.ProjectileOwner?
    ensures UniqueIds(Apply(pol, list, st)) && IdsBelow(Apply(pol, list, st), nextId + |st.spawned|)
    ensures forall id: nat :: Owned(Apply(pol, list, st), id) <= Owned(list, id)
    ensures Weight(Tail(Apply(pol, list, st), i + 1)) < Weight(Tail(list, i))
  {
    ApplyShrinks(pol, list, i, st);
    ApplyKeepsIds(pol, list, i, st, nextId);
    forall id: nat
      ensures Owned(Apply(pol, list, st), id) <= Owned(list, id)
    {
      ApplyKeepsOwned(pol, list, i, st, id);
    }
  }

  /** The walk over the live list: each projectile in turn is updated and its step applied; entries removed or
      appended during the walk are seen as the index moves on. A crashed or endless update stops the walk. */
  method UpdateAll(pol: Removal, r: Round, phys: Physics, now: int)
    returns (list: seq<Projectile>, players: seq<Player>, nextId: nat, stopped: bool, ghost steps: seq<Step>)
    requires Valid(r.maze) && r.maze.height >= 1 && r.maze.width >= 1
    requires UniqueIds(r.projectiles) && IdsBelow(r.projectiles, r.nextId)
    ensures UniqueIds(list) && IdsBelow(list, nextId) && r.nextId <= nextId
    ensures |players| == |r.players| && SamePeople(players, r.players) && OnlyDie(players, r.players)
    ensures forall id: nat :: Owned(list, id) <= Owned(r.projectiles, id)
    ensures Walked(pol, r.maze, phys, now, Walk(r.projectiles, r.players, r.nextId), steps)
    ensures Replay(pol, Walk(r.projectiles, r.players, r.nextId), steps) == Walk(list, players, nextId)
    ensures !stopped ==> |steps| >= |list|
  {
    list, players, nextId, steps := r.projectiles, r.players, r.nextId, [];
    var i := 0;
    while i < |list|
      invariant i == |steps| && Walking(pol, r, phys, now, list, players, nextId, steps)
      decreases Weight(Tail(list, i))
    {
      var crashed;
      list, players, nextId, crashed, steps := WalkOne(pol, r, phys, now, list, players, nextId, i, steps);
      if crashed {
        return list, players, nextId, true, steps;
      }
      i := i + 1;
    }
    stopped := false;
  }

  /** The tick: update every projectile over the live list (entries removed or appended during the walk are seen
      as the index moves on); with nobody alive, call game.newRound, which ends this round and starts the next on
      the same players, and arm the failsafe once; with probability 1/250 (the draw below 1/250) drop a power-up
      into this round; run this round's claims for the players, re-placed if the next round started; broadcast
      this round without the map. A thrown error or an endless route walk or placement stops the tick where it
      happens. */
  method Tick(pol: Removal, r: Round, phys: Physics, now: int, spawnDraw: real, rx: real, ry: real, rt: real,
    game: Registry, openDraw: real)
    returns (r': Round, started: Option<Round>, signals: seq<Signal>, stopped: bool, ghost steps: seq<Step>,
      ghost claimers: seq<Player>)
    requires Valid(r.maze) && r.maze.height >= 1 && r.maze.width >= 1
    requires UniqueIds(r.projectiles) && IdsBelow(r.projectiles, r.nextId)
    requires 0.0 <= spawnDraw < 1.0 && 0.0 <= rx < 1.0 && 0.0 <= ry < 1.0 && 0.0 <= rt < 1.0
    requires 0.0 <= openDraw < 1.0
    ensures r'.gameCode == r.gameCode && r'.roundNumber == r.roundNumber && r'.maze == r.maze && r'.walls == r.walls
    ensures |r'.players| == |r.players|
    ensures UniqueIds(r'.projectiles) && IdsBelow(r'.projectiles, r'.nextId) && r.nextId <= r'.nextId
    ensures forall id: nat :: Owned(r'.projectiles, id) <= Owned(r.projectiles, id)
    ensures stopped ==> started.None? && signals == [] && r'.failsafeArmed == r.failsafeArmed
    ensures game.Unregistered? ==> started.None?
    ensures started.Some? ==> Started(started.value, r, r.players, game.gameSize) && started.value.players == r'.players
    ensures !stopped && started.None? && game.Registered? ==> !NoneAlive(r'.players)
    ensures !stopped ==>
      var down := started.Some? || NoneAlive(r'.players);
      && (ArmFailsafe in signals <==> ArmsFailsafe(pol, down, started.Some?, r.failsafeArmed))
      && r'.failsafeArmed == (r.failsafeArmed || ArmsFailsafe(pol, down, started.Some?, r.failsafeArmed))
      && |signals| >= 1 && LastSignal(signals) == RoundUpdate(GetCondensed(phys, r', false))
    ensures !stopped && 250.0 * spawnDraw >= 1.0 ==> |r'.powerups| <= |r.powerups|
    ensures !stopped ==> |r'.powerups| <= |r.powerups| + 1
    ensures Walked(pol, r.maze, phys, now, Walk(r.projectiles, r.players, r.nextId), steps)
    ensures
      var w := Replay(pol, Walk(r.projectiles, r.players, r.nextId), steps);
      && w.list == r'.projectiles && OnlyDie(w.players, r.players)
      && (!stopped ==> |steps| >= |w.list|)
      && (!stopped ==>
            (r'.players, r'.powerups) ==
            ClaimAll(claimers, r.powerups + SpawnedPowerUps(r.maze, w.nextId, spawnDraw, rx, ry, rt, now), 0))
      && (started.None? ==> claimers == w.players)
    ensures started.Some? ==> PlacedIn(claimers, started.value.maze, r.players)
  {
    var list, players, nextId, crashed;
    list, players, nextId, crashed, steps := UpdateAll(pol, r, phys, now);
    if crashed {
      r' := r.(players := players, projectiles := list, nextId := nextId);
      return r', None, [], true, steps, players;
    }
    r', started, signals, stopped, claimers :=
      FinishTick(pol, r, list, players, nextId, phys, now, spawnDraw, rx, ry, rt, game, openDraw);
  }

  /** The tick after the walk: the restart and the failsafe when nobody is alive, the chance of a power-up, the
      claims, and the broadcast without the map. The claims and the broadcast are this round's, but its players
      are the objects the new round has just placed and revived. */
  method FinishTick(pol: Removal, r: Round, list: seq<Projectile>, players: seq<Player>, nextId: nat, phys: Physics,
    now: int, spawnDraw: real, rx: real, ry: real, rt: real, game: Registry, openDraw: real)
    returns (r': Round, started: Option<Round>, signals: seq<Signal>, stopped: bool, ghost claimers: seq<Player>)
    requires r.maze.height >= 1 && r.maze.width >= 1 && SamePeople(players, r.players)
    requires 0.0 <= rx < 1.0 && 0.0 <= ry < 1.0 && 0.0 <= rt < 1.0 && 0.0 <= openDraw < 1.0
    ensures r'.gameCode == r.gameCode && r'.roundNumber == r.roundNumber && r'.maze == r.maze && r'.walls == r.walls
    ensures r'.projectiles == list && |r'.players| == |players| && nextId <= r'.nextId
    ensures IdsBelow(list, nextId) ==> IdsBelow(list, r'.nextId)
    ensures stopped <==> NoneAlive(players) && game.Registered? && |players| > CellCount(game.gameSize)
    ensures stopped ==> started.None? && signals == [] && r'.failsafeArmed == r.failsafeArmed
    ensures started.Some? <==> !stopped && NoneAlive(players) && game.Registered?
    ensures started.Some? ==> Started(started.value, r, r.players, game.gameSize) && started.value.players == r'.players
    ensures !stopped && started.None? ==> (NoneAlive(r'.players) <==> NoneAlive(players))
    ensures !stopped ==>
      && (ArmFailsafe in signals <==> ArmsFailsafe(pol, NoneAlive(players), started.Some?, r.failsafeArmed))
      && r'.failsafeArmed == (r.failsafeArmed || ArmsFailsafe(pol, NoneAlive(players), started.Some?, r.failsafeArmed))
      && |signals| >= 1 && LastSignal(signals) == RoundUpdate(GetCondensed(phys, r', false))
    ensures !stopped && 250.0 * spawnDraw >= 1.0 ==> |r'.powerups| <= |r.powerups|
    ensures !stopped ==> |r'.powerups| <= |r.powerups| + 1
    ensures !stopped ==>
      (r'.players, r'.powerups) ==
      ClaimAll(claimers, r.powerups + SpawnedPowerUps(r.maze, nextId, spawnDraw, rx, ry, rt, now), 0)
    ensures started.None? ==> claimers == players
    ensures started.Some? ==>
      && PlacedIn(claimers, started.value.maze, r.players)
      && forall k :: 0 <= k < |claimers| ==> claimers[k].weapon == Bullet && claimers[k].uses == 0
  {
    var down := NoneAlive(players);
    var ps, begun, hung := players, None, false;
    if down {
      ps, begun, hung := Restart(r, players, game, openDraw, now);
      if hung {
        r' := r.(players := players, projectiles := list, nextId := nextId);
        return r', None, [], true, players;
      }
      if begun.Some? {
        StartedSamePeople(begun.value, r, players, r.players, game.gameSize);
      }
    }
    claimers := ps;
    var size := if game.Registered? then game.gameSize else None;
    r', started, signals := ClaimAndReport(pol, r, list, ps, begun, down, nextId, phys, now, spawnDraw, rx, ry, rt, size);
    stopped := false;
  }

  /** The tick after the restart: the failsafe, the chance of a power-up, the claims by the players ps (the walk's
      own, or the ones the new round begun has just placed), and the broadcast of this round without the map. */
  method ClaimAndReport(pol: Removal, r: Round, list: seq<Projectile>, ps: seq<Player>, begun: Option<Round>,
    down: bool, nextId: nat, phys: Physics, now: int, spawnDraw: real, rx: real, ry: real, rt: real,
    gameSize: Option<nat>)
    returns (r': Round, started: Option<Round>, signals: seq<Signal>)
    requires r.maze.height >= 1 && r.maze.width >= 1
    requires 0.0 <= rx < 1.0 && 0.0 <= ry < 1.0 && 0.0 <= rt < 1.0
    requires begun.Some? ==> Started(begun.value, r, r.players, gameSize) && begun.value.players == ps
    ensures r'.gameCode == r.gameCode && r'.roundNumber == r.roundNumber && r'.maze == r.maze && r'.walls == r.walls
    ensures r'.projectiles == list && |r'.players| == |ps| && nextId <= r'.nextId
    ensures IdsBelow(list, nextId) ==> IdsBelow(list, r'.nextId)
    ensures started.Some? <==> begun.Some?
    ensures started.Some? ==>
      && Started(started.value, r, r.players, gameSize) && started.value.players == r'.players
      && started.value.maze == begun.value.maze
    ensures begun.None? ==> (NoneAlive(r'.players) <==> NoneAlive(ps))
    ensures ArmFailsafe in signals <==> ArmsFailsafe(pol, down, begun.Some?, r.failsafeArmed)
    ensures r'.failsafeArmed == (r.failsafeArmed || ArmsFailsafe(pol, down, begun.Some?, r.failsafeArmed))
    ensures |signals| >= 1 && LastSignal(signals) == RoundUpdate(GetCondensed(phys, r', false))
    ensures 250.0 * spawnDraw >= 1.0 ==> |r'.powerups| <= |r.powerups|
    ensures |r'.powerups| <= |r.powerups| + 1
    ensures (r'.players, r'.powerups) == ClaimAll(ps, r.powerups + SpawnedPowerUps(r.maze, nextId, spawnDraw, rx, ry, rt, now), 0)
  {
    signals := [];
    var armed := r.failsafeArmed;
    if ArmsFailsafe(pol, down, begun.Some?, armed) {
      signals := signals + [ArmFailsafe];
      armed := true;
    }
    var claimants, powerups, next := SpawnAndClaim(r, ps, nextId, spawnDraw, rx, ry, rt, now);
    r' := Round(r.gameCode, r.roundNumber, claimants, list, powerups, r.maze, r.walls, armed, next);
    started := None;
    if begun.Some? {
      ClaimsKeepStarted(begun.value, r, r.players, gameSize, claimants);
      started := Some(begun.value.(players := claimants));
    } else {
      assert NoneAlive(claimants) <==> NoneAlive(ps);
    }
    signals := signals + [RoundUpdate(GetCondensed(phys, r', false))];
  }

  /** The power-up the tick drops into the round: one with the given id when the draw falls below 1/250, none
      otherwise. */
  function SpawnedPowerUps(m: Maze, id: nat, spawnDraw: real, rx: real, ry: real, rt: real, now: int): (s: seq<PowerUp>)
    requires m.height >= 1 && m.width >= 1
    requires 0.0 <= rx < 1.0 && 0.0 <= ry < 1.0 && 0.0 <= rt < 1.0
    ensures |s| <= 1 && (|s| == 1 <==> 250.0 * spawnDraw < 1.0)
    ensures forall k :: 0 <= k < |s| ==> s[k].id == id && s[k].weapon != Bullet
  {
    if 250.0 * spawnDraw < 1.0 then [RandomPowerUp(m, id, rx, ry, rt, now)] else []
  }

  /** The power-up part of the tick: with probability 1/250 (the draw below 1/250) a power-up is dropped with the
      next id, then every power-up of the round checks for a claimant among the players. */
  method SpawnAndClaim(r: Round, ps: seq<Player>, nextId: nat, spawnDraw: real, rx: real, ry: real, rt: real,
    now: int) returns (claimants: seq<Player>, powerups: seq<PowerUp>, next: nat)
    requires r.maze.height >= 1 && r.maze.width >= 1
    requires 0.0 <= rx < 1.0 && 0.0 <= ry < 1.0 && 0.0 <= rt < 1.0
    ensures |claimants| == |ps|
    ensures forall k :: 0 <= k < |ps| ==> claimants[k] == ps[k].(weapon := claimants[k].weapon, uses := claimants[k].uses)
    ensures next == if 250.0 * spawnDraw < 1.0 then nextId + 1 else nextId
    ensures 250.0 * spawnDraw >= 1.0 ==> |powerups| <= |r.powerups|
    ensures |powerups| <= |r.powerups| + 1
    ensures (claimants, powerups) == ClaimAll(ps, r.powerups + SpawnedPowerUps(r.maze, nextId, spawnDraw, rx, ry, rt, now), 0)
  {
    var pool := r.powerups;
    next := nextId;
    if 250.0 * spawnDraw < 1.0 {
      pool := pool + [RandomPowerUp(r.maze, nextId, rx, ry, rt, now)];
      next := nextId + 1;
    }
    assert pool == r.powerups + SpawnedPowerUps(r.maze, nextId, spawnDraw, rx, ry, rt, now);
    var claimed := ClaimAll(ps, pool, 0);
    claimants, powerups := claimed.0, claimed.1;
  }

  /** Claims change only weapons and charges, so the players of a started round, after claiming, still make it a
      started round. */
  lemma ClaimsKeepStarted(n: Round, r: Round, ps: seq<Player>, gameSize: Option<nat>, claimed: seq<Player>)
    requires Started(n, r, ps, gameSize) && |claimed| == |n.players|
    requires forall k :: 0 <= k < |claimed| ==>
      claimed[k] == n.players[k].(weapon := claimed[k].weapon, uses := claimed[k].uses)
    ensures Started(n.(players := claimed), r, ps, gameSize)
  {
    var n' := n.(players := claimed);
    assert StartedRound(n', r, gameSize) by {
      assert n'.maze == n.maze && n'.walls == n.walls;
    }
    ClaimsKeepPlaced(n.players, claimed, n.maze, ps);
  }

  /** Placement depends only on positions, liveness and who the players are, none of which a claim changes. */
  lemma ClaimsKeepPlaced(q: seq<Player>, claimed: seq<Player>, m: Maze, ps: seq<Player>)
    requires PlacedIn(q, m, ps) && |claimed| == |q|
    requires forall k :: 0 <= k < |claimed| ==> claimed[k] == q[k].(weapon := claimed[k].weapon, uses := claimed[k].uses)
    ensures PlacedIn(claimed, m, ps)
  {
    assert forall k :: 0 <= k < |claimed| ==>
      && claimed[k].position == q[k].position && claimed[k].alive == q[k].alive
      && claimed[k].id == q[k].id && claimed[k].name == q[k].name && claimed[k].score == q[k].score;
  }

  /** Placement does not depend on anything about the players but who they are. */
  lemma PlacedInSamePeople(q: seq<Player>, m: Maze, a: seq<Player>, b: seq<Player>)
    requires PlacedIn(q, m, a) && SamePeople(a, b)
    ensures PlacedIn(q, m, b)
  {
  }

  /** A started round is started for any players with the same ids, names and scores. */
  lemma StartedSamePeople(n: Round, r: Round, a: seq<Player>, b: seq<Player>, gameSize: Option<nat>)
    requires Started(n, r, a, gameSize) && SamePeople(a, b)
    ensures Started(n, r, b, gameSize)
  {
    PlacedInSamePeople(n.players, n.maze, a, b);
  }


  // ---------------------------------------------------------------------------
  // The broadcast state

  datatype CondensedProjectile = CondensedProjectile(
    id: nat, owner: Owner, timeCreated: int, lifeTime: int, pos: CondensedPosition, vel: Velocity,
    width: real, height: real)

  datatype CondensedPlayer = CondensedPlayer(
    id: nat, name: string, gameCode: string, host: bool, position: CondensedPosition, bodyAngle: real,
    turretAngle: real, width: real, height: real, alive: bool, score: int)

  datatype CondensedPowerUp = CondensedPowerUp(id: nat, position: CondensedPosition, letter: char)

  datatype CondensedRound = CondensedRound(
    gameCode: string, roundNumber: int, projectiles: seq<CondensedProjectile>, players: seq<CondensedPlayer>,
    powerups: seq<CondensedPowerUp>, maze: Option<CondensedMaze>)

  function CondenseProjectile(phys: Physics, p: Projectile): CondensedProjectile
  {
    CondensedProjectile(p.id, p.owner, p.timeFired, p.lifeTime, Geometry.GetCondensed(p.position),
      Cartesian(phys, p.motion), p.width, p.height)
  }

  function CondensePlayer(p: Player): CondensedPlayer
  {
    CondensedPlayer(p.id, p.name, p.gameCode, p.host, Geometry.GetCondensed(p.position), p.bodyAngle,
      p.turretAngle, p.width, p.height, p.alive, p.score)
  }

  /** getCondensed: every projectile, player and power-up in order, and the maze only when asked for. */
  function GetCondensed(phys: Physics, r: Round, withMap: bool): (c: CondensedRound)
    ensures c.gameCode == r.gameCode && c.roundNumber == r.roundNumber
    ensures c.maze.Some? <==> withMap
    ensures withMap ==> c.maze.value == GetCondensedMaze(r.maze)
    ensures |c.projectiles| == |r.projectiles| && |c.players| == |r.players| && |c.powerups| == |r.powerups|
    ensures forall k :: 0 <= k < |r.players| ==>
      c.players[k].id == r.players[k].id && c.players[k].alive == r.players[k].alive
      && c.players[k].score == r.players[k].score
    ensures forall k :: 0 <= k < |r.projectiles| ==>
      c.projectiles[k].id == r.projectiles[k].id && c.projectiles[k].owner == r.projectiles[k].owner
    ensures forall k :: 0 <= k < |r.powerups| ==>
      c.powerups[k].id == r.powerups[k].id && c.powerups[k].letter == Letter(r.powerups[k].weapon)
  {
    CondensedRound(
      r.gameCode, r.roundNumber,
      seq(|r.projectiles|, k requires 0 <= k < |r.projectiles| => CondenseProjectile(phys, r.projectiles[k])),
      seq(|r.players|, k requires 0 <= k < |r.players| => CondensePlayer(r.players[k])),
      seq(|r.powerups|, k requires 0 <= k < |r.powerups| =>
        CondensedPowerUp(r.powerups[k].id, Geometry.GetCondensed(r.powerups[k].position),
          Letter(r.powerups[k].weapon))),
      if withMap then Some(GetCondensedMaze(r.maze)) else None)
  }

  /** A client that rebuilds the positions of the broadcast players finds them where the server has them. */
  lemma CondensedPlayersRoundTrip(phys: Physics, r: Round, withMap: bool, k: nat, now: int)
    requires k < |r.players|
    ensures var q := FromCondensed(GetCondensed(phys, r, withMap).players[k].position, now);
      q.x == r.players[k].position.x && q.y == r.players[k].position.y
  {
    CondensedRoundTrip(r.players[k].position, Geometry.GetCondensed(r.players[k].position), now);
  }

  // ---------------------------------------------------------------------------
  // Ending the round

  function AliveCount(ps: seq<Player>): (n: nat)
    ensures n <= |ps|
    ensures n == 0 <==> NoneAlive(ps)
  {
    if ps == [] then 0 else (if ps[0].alive then 1 else 0) + AliveCount(ps[1..])
  }

  function TotalScore(ps: seq<Player>): int
  {
    if ps == [] then 0 else ps[0].score + TotalScore(ps[1..])
  }

  /** The index of the first living player. */
  function FirstAlive(ps: seq<Player>): (k: nat)
    requires !NoneAlive(ps)
    ensures k < |ps| && ps[k].alive && forall j :: 0 <= j < k ==> !ps[j].alive
  {
    if ps[0].alive then 0 else 1 + FirstAlive(ps[1..])
  }

  /** With exactly one player alive, that player is the first living one and nobody after it lives. */
  lemma {:induction false} SoleSurvivor(ps: seq<Player>)
    requires AliveCount(ps) == 1
    ensures forall j :: 0 <= j < |ps| && j != FirstAlive(ps) ==> !ps[j].alive
    decreases |ps|
  {
    if ps[0].alive {
      assert AliveCount(ps[1..]) == 0;
      forall j | 1 <= j < |ps|
        ensures !ps[j].alive
      {
        assert ps[1..][j - 1] == ps[j];
      }
    } else {
      SoleSurvivor(ps[1..]);
      forall j | 1 <= j < |ps| && j != FirstAlive(ps)
        ensures !ps[j].alive
      {
        assert ps[1..][j - 1] == ps[j];
      }
    }
  }

  /** endRound: a sole survivor scores one point; otherwise the scores stay. Timers and sockets are dropped. */
  function EndRound(r: Round): (r': Round)
    ensures r' == r.(players := r'.players) && |r'.players| == |r.players|
    ensures AliveCount(r.players) == 1 ==>
      var k := FirstAlive(r.players);
      && r'.players[k] == r.players[k].(score := r.players[k].score + 1)
      && forall j :: 0 <= j < |r.players| && j != k ==> r'.players[j] == r.players[j] && !r.players[j].alive
    ensures AliveCount(r.players) != 1 ==> r'.players == r.players
  {
    if AliveCount(r.players) == 1 then
      SoleSurvivor(r.players);
      var k := FirstAlive(r.players);
      r.(players := r.players[k := r.players[k].(score := r.players[k].score + 1)])
    else r
  }

  /** Ending a round hands out exactly one point in all when one player survives, and none otherwise. */
  lemma EndRoundScores(r: Round)
    ensures TotalScore(EndRound(r).players) == TotalScore(r.players) + if AliveCount(r.players) == 1 then 1 else 0
  {
    if AliveCount(r.players) == 1 {
      var k := FirstAlive(r.players);
      ScoreUpdate(r.players, k, r.players[k].score + 1);
    }
  }

  lemma {:induction false} ScoreUpdate(ps: seq<Player>, k: nat, s: int)
    requires k < |ps|
    ensures TotalScore(ps[k := ps[k].(score := s)]) == TotalScore(ps) - ps[k].score + s
    decreases |ps|
  {
    if k > 0 {
      ScoreUpdate(ps[1..], k - 1, s);
      assert ps[k := ps[k].(score := s)][1..] == ps[1..][k - 1 := ps[k].(score := s)];
    } else {
      assert ps[0 := ps[0].(score := s)][1..] == ps[1..];
    }
  }
}
