# Tank-Trample server core in Dafny

Tank-Trample is a multiplayer tank game. The server runs each round as a simulation:

- a rectangular maze of square cells, carved as a random spanning tree and then opened up with extra passages;
- the wall segments derived from that maze;
- tanks (players) that move and are blocked by walls;
- projectiles of five classes. Plain bullets, lasers, air-burst shells that split into five fragments, homing
  rockets that route through the maze, and land mines that arm, trigger and throw 24 shrapnel pieces;
- power-ups that hand a weapon with a number of charges to the nearest tank;
- a 30 Hz tick that updates every projectile, starts the next round when nobody is alive, spawns power-ups, lets
  them be claimed and broadcasts the condensed state. At the end of a round the sole survivor scores a point.

The model keeps every value immutable. A round, maze, player or projectile is a datatype, and each operation is a
pure function (or a method, where the original loops over random draws). Three things the original takes from
the environment become parameters:

- time is an explicit `now` in milliseconds;
- a random retry loop becomes a nondeterministic choice (`:|`), and a single random number is a draw in [0, 1);
- the trigonometry and the wall bounce form a `Physics` record of functions.

Modules, in dependency order:

| module | file | models |
|---|---|---|
| `Wrappers` | wrappers.dfy | `Option` and `Result` (the original's `null`/`undefined` and thrown errors) |
| `Geometry` | geometry.dfy | `Position`, `Velocity`, condensed positions (position.js) |
| `Grid` | grid.dfy | cells, node ids, grid neighbours, cell squares and centres (map.js) |
| `Graph` | graph.dfy | the passage relation as a map from cell to connected cells: paths, reachability, BFS balls, edge counts |
| `MazeMap` | maze.dfy | `Maze`: Prim's generation, `removeWalls`, node lookup, SVG path, condensed maze (map.js) |
| `Walls` | walls.dfy | `WallManager`: border and north/west walls, segment intersection (walls.ts) |
| `Players` | player.dfy | `Player`: defaults, hit box, point collision, weapon charges, wall-blocked movement (player.js) |
| `Projectiles` | projectiles.dfy | projectile classes, the base update, air burst, land mine, the uses table, power-ups (projectiles.js) |
| `Rockets` | rocket.dfy | the rocket's target lock, BFS next hop and steering (projectiles.js) |
| `Rounds` | round.dfy | sizing, spawning, move/shoot events, the tick, condensing, end of round (round.js) |

Maze cells are `Cell(row, col)`. The maze keeps its passages as a map from each cell to the set of cells it is
open to, and a node's id is `row * width + col`. Projectile and power-up ids are natural numbers handed out from
a counter in the round; the original draws random strings. A projectile's owner is tagged either as a player
(`PlayerOwner`) or as the projectile it split from (`ProjectileOwner`).

Three lines of projectiles.js (48, 58 and 318) remove a projectile with `splice(indexOf(this), 1)`. The model takes a `Removal`
policy for that call: `AsWritten` reproduces the code, including what happens when the projectile is no longer in the
list, and `Corrected` is the evident intent (see Findings). The rocket's same-cell steering and the tick's failsafe timer also depend on
the policy. The tick (`Rounds.Tick`) and `Rounds.UpdateAll` take the policy as a parameter, and every property of
them is proved for both policies.

Where the documented behaviour and the code differ, the model follows the code, with one exception: the round's openness draw is clamped to [0, 1] (see Findings and Left out). Otherwise:

- a power-up is claimed by the nearest player within 50 units whether or not that player is alive;
- the tick walks the live projectile list by index. When an update removes the projectile, the loop still
  advances, so the next projectile is skipped in that tick. The same holds for the power-up claim loop. A
  projectile is therefore removed at the first tick it is updated after expiring, not necessarily the first
  tick after expiring.

The tick's projectile loop is stated as a walk. Each `Step` is one class update: the projectile as it now stands,
the players afterwards, how many times it splices itself out, and the fragments it appends. `Rounds.Replay`
applies a sequence of steps to the list, the players and the id counter. `Rounds.Walked` says that step j is the
class update of the projectile at index j of the list, as the earlier steps left it. `Rounds.UpdateAll` returns
that sequence of steps as a ghost result.

## Model

| member | source | states |
|---|---|---|
| Geometry.MoveToForgetsOrigin | server/common/structures/position.js:24-29 | moving to (x, y) at time now gives the same position from any start, and moving there again changes nothing |
| Geometry.MoveByInverse | server/common/structures/position.js:38-43 | moveBy(dx, dy) followed by moveBy(-dx, -dy) restores x and y; the stamp is the second call's time |
| Geometry.MoveByVelocityAdd | server/common/structures/position.js:233-236 | moving by velocity a and then by b equals one move by a.add(b), so add is componentwise addition |
| Geometry.UpdateByVelocityIdempotent | server/common/structures/position.js:81-87 | a second updateByVelocity at the same time leaves the position unchanged, and afterwards no time has passed since the last update |
| Geometry.UpdateByVelocitySplit | server/common/structures/position.js:81-87 | integrating a constant velocity to t1 and then to t2 lands where integrating straight to t2 does |
| Geometry.TimeSinceLastUpdate | server/common/structures/position.js:112-114 | the last update's time plus the elapsed time is now |
| Geometry.Copy | server/common/structures/position.js:157-161 | the copy equals the original in x, y and lastUpdated; values are immutable, so changing one never changes the other |
| Geometry.CondensedRoundTrip | server/common/structures/position.js:145-169 | fromCondensed(getCondensed(p)) is p with lastUpdated replaced by the construction time, and condensing a rebuilt position gives back the condensed coordinates |
| Geometry.DistSqSymmetric | server/common/structures/position.js:122-124 | the squared distance inside distanceTo is symmetric and zero from a point to itself |
| Grid.PopulateNodes | server/common/structures/map.js:69-95 | an h × w grid of nodes; node (i, j) has id i·w + j, origin (j·scale, i·scale), and as neighbours exactly the in-bounds cells one step up, down, left or right |
| Grid.Neighbours | server/common/structures/map.js:81-92 | a cell's neighbour list holds exactly its in-bounds adjacent cells, without duplicates |
| Grid.NeighboursSymmetric | server/common/structures/map.js:81-92 | d is a neighbour of c iff c is a neighbour of d |
| Grid.NodeIdBijection | server/common/structures/map.js:74 | the id row·width + col lies in [0, h·w), differs between cells, and gives back row and column by division and remainder |
| Grid.CellsCard | server/common/structures/map.js:69-95 | the grid has exactly h·w cells |
| Graph.GridArcsCard | server/common/structures/map.js:136 | a grid has exactly 2·h·w − h − w adjacent pairs (maxEdges); each counts in both directions |
| Graph.ArcsWithinGrid | server/common/structures/map.js:136 | a passage relation inside the grid has at most maxEdges passages |
| Graph.AddEdgeArcs | server/common/structures/map.js:115-116 | pushing a node onto its neighbour's connected list and back adds exactly the two directed arcs and nothing else |
| Graph.ConnectedInSuperGraph | server/common/structures/map.js:135-160 | adding passages never disconnects a connected maze |
| Graph.RootReachesAll | server/common/structures/map.js:100-129 | if every cell is reachable from one root over symmetric passages, every cell reaches every other |
| Graph.BallWithin | server/common/structures/projectiles.js:211-230 | the cells found after k BFS rounds are exactly the cells within k passages |
| Graph.StableBallHasReachable | server/common/structures/projectiles.js:211-230 | once a BFS round adds nothing, the cells found are exactly the reachable cells |
| MazeMap.GenerateMaze | server/common/structures/map.js:100-129 | the passages stay inside the grid, are symmetric, number exactly h·w − 1 (none for a 1 × 1 maze) and connect every cell to every other |
| MazeMap.PrimStep | server/common/structures/map.js:108-128 | one outer iteration moves one border cell inside with one passage to an inside cell; the border keeps no inside cell, no duplicate and every outside cell next to the inside |
| MazeMap.PrimStepTree | server/common/structures/map.js:112-120 | after the step the passages join only inside cells, there are 2·(inside − 1) arcs, and every inside cell is reachable from the start |
| MazeMap.BorderTouchesInside | server/common/structures/map.js:112-120 | a border cell always has an inside neighbour, so the retry loop can finish |
| MazeMap.AddToBorder | server/common/structures/map.js:121-127 | the new border is the old one plus the node's neighbours that are not inside, with no duplicates |
| MazeMap.PrimEnd | server/common/structures/map.js:108 | when the border is empty every cell is inside, so the tree has h·w − 1 passages and is connected |
| MazeMap.NewMaze | server/common/structures/map.js:55-63 | a new maze has the given size, scale and time, and its passages form a spanning tree of the grid |
| MazeMap.RemoveWalls | server/common/structures/map.js:135-160 | removeWalls keeps every passage and adds exactly max(0, toAdd) new ones between grid neighbours; with openness 0 nothing changes |
| MazeMap.SpanningTreeLeavesRoom | server/common/structures/map.js:136-138 | for 0 ≤ openness ≤ 1 a spanning tree plus toAdd passages still fits in the grid, so each added passage has a free wall to open |
| MazeMap.WalledNeighbour | server/common/structures/map.js:150-156 | a node with fewer passages than neighbours has a neighbour it is not yet open to, so the inner retry loop can finish |
| MazeMap.RoomForPassage | server/common/structures/map.js:141-148 | while the grid has a closed wall some node has fewer passages than neighbours, so the outer retry loop can finish |
| MazeMap.GetNode | server/common/structures/map.js:209-214 | getNode(x, y) gives the cell in column x and row y, and fails exactly when x ∉ [0, width) or y ∉ [0, height) |
| MazeMap.GetNodeById | server/common/structures/map.js:209-214 | looking a cell up by the column and row of its id gives the cell back |
| MazeMap.GetNodeFromPos | server/common/structures/map.js:221-227 | no cell exactly when the point lies outside [0, width·scale) × [0, height·scale); otherwise the in-grid cell whose square holds the point |
| MazeMap.NodeFromCentre | server/common/structures/map.js:221-227 | the centre of a cell maps back to that cell |
| MazeMap.CondensedSidesArePassages | server/common/structures/map.js:19-42 | left, right, up and down are true exactly when the cell has a passage on that side |
| MazeMap.GetCondensedMaze | server/common/structures/map.js:228-238 | the condensed maze holds the condensed node of every cell, row by row, and an SVG path (as M/L commands) that parses back to the border and the wall segments |
| MazeMap.CondensedMazeMatches | server/common/structures/map.js:228-238 | the condensed node at row i, column j has id i·width + j and is open on a side iff the maze has a passage there |
| MazeMap.GenerateSvg | server/common/structures/map.js:166-201 | the path commands start with the four-segment border and continue with one M/L pair per closed side, which parse back to the wall list |
| MazeMap.SvgWallExactlyWhereWalled | server/common/structures/map.js:178-197 | a cell side's segment is in the SVG walls iff that side is closed |
| MazeMap.OuterSidesWalled | server/common/structures/map.js:178-197 | a side facing outside the grid is always closed, so top-row north and left-column west sides are always drawn |
| MazeMap.WalledBothWays | server/common/structures/map.js:178-197 | a side is closed iff the same side seen from the cell across is closed |
| MazeMap.ParsePathData | server/common/structures/map.js:166-201 | the M/L command list of a segment list parses back to the same list |
| Walls.NewWallManager | server/common/structures/walls.ts:14-53 | the first four walls are the border rectangle and the rest are the per-cell north and west walls |
| Walls.OuterSidesOnBorder | server/common/structures/walls.ts:21-26 | the south and east sides of the last row and column lie on the border rectangle width·scale × height·scale |
| Walls.InternalWallExactlyWhereWalled | server/common/structures/walls.ts:29-53 | every closed side of a cell has its segment among the internal walls, and every open side has none |
| Walls.NorthWestMembers | server/common/structures/walls.ts:33-51 | a cell adds a north (west) wall iff it has no passage to the cell above (left), which always holds in row (column) 0 |
| Walls.LineIntersectsMeans | server/common/structures/walls.ts:78-90 | lineIntersects is true iff the denominator is non-zero and some t, u in [0, 1] make p1 + t(p2 − p1) = p3 + u(p4 − p3); parallel and collinear segments never intersect |
| Walls.CheckLineCollision | server/common/structures/walls.ts:62-72 | true iff some stored wall crosses the query segment |
| Walls.CollisionMeans | server/common/structures/walls.ts:62-72 | checkLineCollision is true iff the query segment meets some wall at parameters in [0, 1] |
| Players.NewPlayer | server/common/structures/player.js:13-28 | a new player is 35 × 35 at the origin, alive, with score 0, the bullet weapon and no charges |
| Players.NonRotatedPoints | server/common/structures/player.js:110-118 | the four corners at (±w/2, ±h/2) around the position, in order top-left, top-right, bottom-right, bottom-left |
| Players.CollidePointMeans | server/common/structures/player.js:134-152 | the shoelace test passes iff w·(how far |dy| exceeds h/2) + h·(how far |dx| exceeds w/2) < 1 |
| Players.InsideBoxCollides | server/common/structures/player.js:134-152 | every point of the box, the player's own centre included, collides |
| Players.FarPointMisses | server/common/structures/player.js:134-152 | a point a unit or more outside the box on either axis does not collide |
| Players.UsedProjectile | server/common/structures/player.js:119-125 | with more than one charge the weapon stays and loses one; otherwise it reverts to the bullet with 0 charges; nothing else changes and charges never go negative |
| Players.ChargesLast | server/common/structures/player.js:119-125 | a weapon with u charges lasts exactly u shots and then reverts to the bullet |
| Players.BulletsStay | server/common/structures/player.js:119-125 | firing the bullet with no charges changes nothing |
| Players.MakeProbes | server/common/structures/player.js:157-167 | the eight probe points lie CORRECTION = w/2 + 5 around the target, corners and edge midpoints |
| Players.UpdatePosition | server/common/structures/player.js:156-195 | only the position changes; each coordinate ends at the target's or the current one; the stamp is now |
| Players.VerticalResolution | server/common/structures/player.js:176-183 | with a vertical move, y stays put iff the move is up with a blocked up probe or down with a blocked down probe, and otherwise becomes the target's; with no vertical move y becomes the target's |
| Players.HorizontalResolution | server/common/structures/player.js:184-191 | with a horizontal move, x stays put iff the move is right with a blocked right probe or left with a blocked left probe, and otherwise becomes the target's; with no horizontal move x becomes the target's |
| Players.AxesIndependent | server/common/structures/player.js:169-191 | the resolved x depends only on the left/right probes and the resolved y only on the up/down probes |
| Players.ClearMoveReachesTarget | server/common/structures/player.js:156-195 | if no probe segment meets a wall the player ends exactly at the target |
| Projectiles.SetSpeedRescales | server/common/structures/position.js:210-215 | setSpeed rescales the Cartesian velocity: a moving vector has each component multiplied by the new speed over the old, so its direction is kept; a standing vector, whose angle reads as 0, becomes the new speed along angle 0 |
| Projectiles.SetAngle | server/common/structures/position.js:221-226 | setAngle keeps the magnitude and sets the direction |
| Projectiles.Fire | server/common/structures/projectiles.js:21-39 | a fired projectile has the given id, owner, position and direction; each class has its speed, lifetime and size (bullet 135/15 s/10, laser 1500/1 s/5, air burst 150/4 s/10, rocket 110/15 s/15, mine 200/15 s/20 and not yet damaging) |
| Projectiles.IndexOf | server/common/structures/projectiles.js:48 | the first index holding the id, or −1 exactly when no entry has it |
| Projectiles.RemovedAt | server/common/structures/projectiles.js:48 | splice(indexOf(this), 1) removes the projectile's own entry when present; when absent it removes the last entry as written and nothing when corrected |
| Projectiles.RemovePresent | server/common/structures/projectiles.js:47-49 | with unique ids, a present projectile's removal drops exactly its own entry, after which the id is gone |
| Projectiles.RemoveNKeepsIds | server/common/structures/projectiles.js:47-61 | any number of self-removals keep ids unique and below the counter, and never bring back a removed id |
| Projectiles.HitPlayers | server/common/structures/projectiles.js:50-61 | exactly the alive players whose box holds the point die, the others are untouched, and there is a hit iff some alive player's box holds the point |
| Projectiles.BaseUpdate | server/common/structures/projectiles.js:40-105 | an expired projectile removes itself; a damaging one kills exactly the alive players whose box holds its new position; it has no removal iff it is live and hits nobody; a move within one cell or through a passage is the plain velocity step; a non-damaging one leaves the players alone |
| Projectiles.BaseUpdateRemovals | server/common/structures/projectiles.js:47-60 | the update splices the projectile out once if expired plus once per alive player its new position hits |
| Projectiles.TwoHitsCount | server/common/structures/projectiles.js:52-59 | two alive players whose boxes hold the point count as two hits |
| Projectiles.DoubleHitSplicesTwice | server/common/structures/projectiles.js:50-60 | a damaging projectile landing inside two alive players' boxes splices itself out at least twice |
| Projectiles.AsWrittenShrinks | server/common/structures/projectiles.js:58 | as written, n self-removals shorten the list by n (down to empty), whether or not the projectile is still there |
| Projectiles.DoubleHitRemovesBystander | server/common/structures/projectiles.js:50-60 | with a double hit and at least two projectiles in the list, as written it loses at least two; corrected it loses exactly the one that hit |
| Projectiles.QuietUpdateKeepsProjectile | server/common/structures/projectiles.js:40-61 | a live non-damaging projectile never removes itself |
| Projectiles.BurstStep | server/common/structures/projectiles.js:139-162 | after 1.5 s a damaging shell appends five fragments with fresh ids, owned by the shell, at heading + offset k, speed 135 and lifetime 2.5 s, and the shell itself becomes exactly the old shell with damage and collision off and width and height 0; otherwise nothing changes |
| Projectiles.BurstOnce | server/common/structures/projectiles.js:139-162 | a shell bursts at most once |
| Projectiles.BurstFan | server/common/structures/projectiles.js:147-150 | the five offsets are −15, −7.5, 0, 7.5 and 15 degrees |
| Projectiles.FragmentsWithinFan | server/common/structures/projectiles.js:147-160 | every fragment flies within 15 degrees of the shell's heading |
| Projectiles.Shrapnel | server/common/structures/projectiles.js:315-328 | 24 pieces at 0, 15, …, 345 degrees, speed 359, lifetime 300 ms, owned by the mine |
| Projectiles.MineStep | server/common/structures/projectiles.js:292-329 | the mine's speed ramps down, it becomes damaging after 1.5 s, its trigger state changes only on a tick past the 1.5 s arming time with an alive player within 140, and then latches on the first such tick only; it explodes (one more removal and 24 shrapnel) exactly when triggered over 0.5 s ago or past its lifetime |
| Projectiles.MineWaitsAlone | server/common/structures/projectiles.js:300-311 | an untriggered mine within its lifetime with nobody alive near it stays untriggered, does not splice itself out and throws no shrapnel |
| Projectiles.MineSlowsDown | server/common/structures/projectiles.js:294-300 | the mine's speed never grows over time and stays within [0, speed] |
| Projectiles.Charges | server/common/structures/projectiles.js:358-364 | the uses table gives every weapon's letter its charges, and only the bullet gets none |
| Projectiles.LettersDistinct | server/common/structures/projectiles.js:351-364 | weapon letters are distinct, and the uses table has an entry exactly for the five letters |
| Projectiles.Claimant | server/common/structures/projectiles.js:375-394 | the claimant is within the claim radius, no player in range is strictly nearer, earlier players in range are strictly farther, and there is none iff nobody is in range |
| Projectiles.CheckClaim | server/common/structures/projectiles.js:375-394 | the claimant gets the weapon and its charges and the power-up is removed; everyone else is untouched; with nobody in range nothing changes |
| Projectiles.UnclaimedStays | server/common/structures/projectiles.js:375-394 | a power-up with nobody in range stays and changes nobody |
| Projectiles.ClaimAll | server/common/structures/round.js:96-99 | the claim loop changes only weapons and charges; every remaining power-up was in the list, and there are no more of them |
| Projectiles.RandomPowerUp | server/common/structures/projectiles.js:402-422 | a power-up at the centre of the in-grid cell in row ⌊ry·height⌋ and column ⌊rx·width⌋; the type draw picks rocket, mine, air burst or laser for ⌊4·draw⌋ = 0, 1, 2, 3, never the bullet |
| Projectiles.RandomPowerUpCovers | server/common/structures/projectiles.js:402-422 | each of the four special weapons is drawn for some draw |
| Projectiles.RandomPowerUpCellCovers | server/common/structures/projectiles.js:404-409 | every cell of the grid is drawn for some pair of position draws in [0, 1) |
| Rockets.Nearest | server/common/structures/projectiles.js:187-198 | the nearest alive player, the earliest among equals; players[0] when nobody is alive; none only without players |
| Rockets.RouteHop | server/common/structures/projectiles.js:211-239 | no hop when already at the target, a hang iff the target is unreachable, otherwise a connected neighbour that is strictly closer to the target |
| Rockets.FirstHop | server/common/structures/projectiles.js:211-239 | a target first found in BFS round k is reachable, and some neighbour reaches it in k − 1 steps, one fewer than the current cell needs |
| Rockets.ConnectedNeverHangs | server/common/structures/projectiles.js:211-230 | in a connected maze every cell reaches every other, so the route walk ends |
| Rockets.Rem360 | server/common/structures/projectiles.js:266-268 | JavaScript's % 360: the result has the sign of the input, is below 360 in size and differs by whole turns |
| Rockets.AimAt | server/common/structures/projectiles.js:237-265 | no steering without a next hop; goToNew becomes true iff the rocket is within half a cell of its current cell's centre with a next hop, or it stays true in the same cell; near that centre it heads for the next cell's centre, in a new cell away from the centre it heads for its own cell's centre; the target's position when in the target's cell |
| Rockets.RocketStep | server/common/structures/projectiles.js:184-269 | the target becomes the nearest player and the lock restarts when it changes; while locking the rocket flies at 1.4 × speed; without players it fails; it hangs only while inside the map, and in a connected maze only for a target off the map; after the lock, in a cell other than the target's, it heads for the centre of its own cell or of a connected neighbour one step closer to the target |
| Rounds.MapSize | server/common/structures/round.js:37 | the game's size, or 1 when the game lookup fails |
| Rounds.SizeProportion | server/common/structures/round.js:38 | the maze is (2 + 2·size) × (3 + 3·size), growing with size in a fixed 2 : 3 ratio |
| Rounds.Openness | server/common/structures/round.js:39 | the openness draw·size·0.15, clamped to [0, 1] (see Findings) |
| Rounds.OpennessLeavesRoom | server/common/structures/round.js:39 | with the clamped openness removeWalls always has room for its passages |
| Rounds.NewRound | server/common/structures/round.js:27-42 | a round has a connected maze at scale 100 of the size's dimensions, its walls, and every player alive with the bullet, inside the map, at a position no other player shares |
| Rounds.RoundMaze | server/common/structures/round.js:37-40 | the round's maze is connected and has at least a spanning tree's passages |
| Rounds.InitializePlayers | server/common/structures/round.js:43-72 | each player goes to the centre of its own in-grid cell, distinct for distinct players, alive with the bullet and no charges |
| Rounds.FreeCell | server/common/structures/round.js:49-61 | the retry loop ends on an in-grid cell not yet used |
| Rounds.PlacedApart | server/common/structures/round.js:43-72 | players on distinct cells stand at distinct positions, each inside the map |
| Rounds.Owned | server/common/structures/round.js:122-124 | the count of projectiles a player owns is 0 iff none has that player as owner |
| Rounds.Move | server/common/structures/round.js:115-118 | a move resolves the position against the walls and then sets both angles, with no alive check; no one else changes |
| Rounds.Shoot | server/common/structures/round.js:121-128 | a shoot is accepted iff the shooter is alive and owns fewer than 5 projectiles; then exactly one projectile of its weapon is appended and one charge is used; otherwise nothing changes |
| Rounds.ShootKeepsCap | server/common/structures/round.js:121-128 | a shot never takes a player with at most 5 projectiles past 5, adds at most one to the shooter, and leaves other owners' counts alone |
| Rounds.ShootKeepsIds | server/common/structures/round.js:121-128 | a shot keeps projectile ids unique and below the id counter, which only grows |
| Rounds.HandleEvents | server/common/structures/round.js:109-131 | a batch of events changes only the sender and the projectile list, keeps the 5-projectile cap, and keeps ids unique and below the growing counter |
| Rounds.ClassStep | server/common/structures/projectiles.js:40-329 | the update of a non-rocket keeps its id and owner, changes the players only by killing some (exactly the base update's hits), removes an expired one, and appends at most 5 (shell) or 24 (mine) fresh plain fragments owned by the projectile |
| Rounds.HomingStep | server/common/structures/projectiles.js:184-269 | a rocket's update keeps its id and owner, changes the players only by the base update's kills, removes an expired rocket and never spawns |
| Rounds.UpdateProjectile | server/common/structures/round.js:76-79 | each class's update (a non-rocket's is exactly its class step, which never crashes) keeps the projectile's id and owner, changes players only by killing them, removes an expired one, and appends at most 5 (shell) or 24 (mine) fresh plain fragments owned by the projectile |
| Rounds.UpdatesFacts | server/common/structures/projectiles.js:40-329 | whatever its class, an update keeps id and owner, only kills players, splices an expired projectile out at least once, and numbers its plain fragments from the counter |
| Rounds.ApplyShrinks | server/common/structures/round.js:76-79 | each update leaves less work after the loop index than before it, so the loop over the growing live list ends |
| Rounds.ApplyKeepsIds | server/common/structures/round.js:76-79 | applying one update keeps projectile ids unique and below the id counter |
| Rounds.ApplyKeepsOwned | server/common/structures/round.js:76-79 | an update that keeps its projectile's owner and spawns only fragments never raises any player's projectile count |
| Rounds.RemoveNOwned | server/common/structures/projectiles.js:47-60 | self-removals never raise a player's projectile count |
| Rounds.OwnedConcat | server/common/structures/round.js:122-124 | the count over two lists joined is the sum of the counts |
| Rounds.UpdateAll | server/common/structures/round.js:76-79 | the projectile loop is a walk of class updates, step j updating the projectile at index j of the live list as the earlier steps left it, against the players as they left them, until the index passes the end; the result is that walk's replay; players only die; ids stay unique and below the counter; no player owns more projectiles than before |
| Rounds.WalkRemovesExpired | server/common/structures/round.js:76-79 | a projectile that has expired when the walk reaches it is absent from the list afterwards |
| Rounds.ReachedExpiredGone | server/common/structures/projectiles.js:47-49 | along any walk whose updates keep their id, splice an expired projectile out and number fragments from the counter, a projectile expired when reached is absent at the end, under either removal policy |
| Rounds.ReplayKeepsIds | server/common/structures/round.js:76-79 | such a walk keeps ids unique and below the next fresh id, which only grows |
| Rounds.StaysGone | server/common/structures/round.js:76-79 | an id that is absent and already handed out after some step of such a walk stays absent to the end |
| Rounds.WalkedChained | server/common/structures/round.js:76-79 | the loop's walk of class updates is such a walk |
| Rounds.WalkExtends | server/common/structures/round.js:76-79 | a walk goes on by one update of the projectile at the index it has reached, and the replay moves by that update |
| Rounds.WalkingGoesOn | server/common/structures/round.js:76-79 | one update keeps the walk's bookkeeping (ids, deaths only, owned counts) and leaves less work after the index |
| Rounds.WalkOne | server/common/structures/round.js:76-79 | one pass of the loop body: either the update stops the walk with nothing changed, or the walk takes one more step |
| Rounds.ApplyKeepsBooks | server/common/structures/round.js:76-79 | applying an update with fresh plain fragments keeps ids unique and below the counter, owns nothing new and shrinks the rest of the list |
| Rounds.SpliceSkipsNext | server/common/structures/round.js:76-79 | an update that splices its projectile out once moves the next projectile into its index, so the walk, going on at the next index, passes over it this tick |
| Rounds.Tick | server/common/structures/round.js:73-103 | the projectiles are the replay of a walk of class updates over the live list, complete unless the tick stops; players only die in it; the round's players and power-ups afterwards are exactly the claim loop run for the claimers (the walk's players, or the players the new round placed) over this round's power-ups plus the one dropped when the draw is below 1/250; the round keeps its maze, walls and ids; no player's projectile count grows, so the 5-projectile cap holds across ticks; with the game registered and nobody alive the next round starts on the same players, re-placed and revived, and this round's power-up claims and broadcast then use those players; with the game registered and no round started, somebody is alive after the tick; the failsafe is armed on the first tick with nobody alive, as written even when the next round started; the tick ends with a map-less broadcast; at most one power-up spawns |
| Rounds.FinishTick | server/common/structures/round.js:81-102 | after the projectile loop: the players and power-ups are exactly the claim loop over the old power-ups plus the dropped one, run by the walk's players or, after a restart, by the placed players with the bullet and no charges; the next round starts iff nobody is alive and the game is registered, and placement hangs iff there are more players than cells; the failsafe as above; at most one power-up added (none when the spawn draw fails); broadcast last |
| Rounds.Restart | server/common/structures/game.js:109-112 | with the game gone nothing happens; otherwise endRound and a new round numbered one higher, of the game's size, with a connected maze, its walls, nothing in flight, and the same players alive with the bullet at distinct positions in its cells; it hangs iff the players outnumber the cells |
| Rounds.SpawnAndClaim | server/common/structures/round.js:92-99 | the players and power-ups are exactly the claim loop over the round's power-ups plus the dropped one, with the next id consumed iff the draw is below 1/250 |
| Rounds.SpawnedPowerUps | server/common/structures/round.js:92-95 | one power-up with the given id and a special weapon iff the draw is below 1/250, none otherwise |
| Rounds.ClaimAndReport | server/common/structures/round.js:84-102 | the failsafe, the spawn, the claims and the broadcast after the restart: claims as in SpawnAndClaim, the failsafe flag and signal as ArmsFailsafe says, the map-less broadcast last, and a started round still started after its players claim |
| Rounds.ClaimsKeepStarted | server/common/structures/round.js:96-99 | claims made after the restart leave the new round started, as they change only weapons and charges |
| Rounds.ClaimsKeepPlaced | server/common/structures/round.js:96-99 | claims keep every player's position, liveness, id, name and score, so the placement holds |
| Rounds.StartedSamePeople | server/common/structures/game.js:109-112 | a round started for some players is started for any players with the same ids, names and scores |
| Rounds.PlacedInSamePeople | server/common/structures/round.js:43-72 | players placed for one list are placed for any list with the same ids, names and scores |
| Rounds.FailsafeOutlivesRound | server/common/structures/round.js:84-89 | as written, the tick that starts the next round still arms the 500 s failsafe, after endRound has cleared the old one |
| Rounds.FailsafeOnlyUnreplaced | server/common/structures/round.js:84-89 | corrected, the failsafe is armed iff nobody is alive, it is not armed yet and no new round replaced this one; corrected arming implies as-written arming |
| Rounds.GetCondensed | server/common/structures/round.js:138-150 | the condensed round carries the map iff asked, and every projectile, player and power-up with its id, owner, state and letter |
| Rounds.CondensedPlayersRoundTrip | server/common/structures/player.js:78-92 | a condensed player's position rebuilds the player's x and y |
| Rounds.AliveCount | server/common/structures/round.js:159 | the number of alive players is 0 iff nobody is alive |
| Rounds.SoleSurvivor | server/common/structures/round.js:159-161 | with one alive player, every other player is dead |
| Rounds.EndRound | server/common/structures/round.js:151-168 | with exactly one player alive that player gains 1 point and nobody else changes; otherwise all scores stay |
| Rounds.EndRoundScores | server/common/structures/round.js:159-162 | the total score grows by 1 iff exactly one player is alive |

## Left out

- Rotation: `Position.rotate`, `angleTo`, `moveToward`, the rotated `Player.getPoints`, `Velocity.fromAngle`/`getAngle`/`setDirection`. They need floating-point trigonometry. The hit box is the unrotated one.
- Floating point: coordinates are exact reals. A velocity is kept in polar form (heading, speed), and its cosine and sine come from the `Physics` parameter. `sqrt` is avoided by comparing squared distances. Constants such as 110 × 1.4 are exact.
- The wall-bounce geometry at projectiles.js:72-104 is the `Physics.bounce` parameter. Only the rule that a move within one cell, or through a passage, is not reflected is modelled.
- `Date.now()`, `setInterval` and `setTimeout` become the `now` parameter and the `failsafeArmed` flag.
- Socket I/O (`emit`, `sendUpdate`, `sendPosCorrection`, listeners, disconnects, `setName`): the tick returns `Signal` values instead of emitting.
- Random string ids are natural numbers from the round's counter. Player ids, which are socket ids (strings) in the original, are natural numbers too; only their equality is used.
- `Math.random()` retry loops (Prim's picks, `removeWalls`, spawn cells) are nondeterministic choices. Single draws (openness, power-up spawn and type) are parameters in [0, 1).
- Rockets.RouteHop: the rocket takes the BFS parent chain, and the choice among equally short routes depends on the order of the connected lists. The model promises some strictly closer neighbour, not the original's tie choice.
- Rockets.RocketStep: when the original throws (no players) or loops forever (target off the map, or unreachable), the model returns `Crashed` or `Hung` and says nothing about the state afterwards.
- Rounds.MapSize: takes the game size as an optional natural number; negative or fractional sizes are not modelled.
- Rounds.InitializePlayers: requires at most as many players as cells; with more the original never ends.
- Rounds.UpdateProjectile: the laser class has no update of its own, so it runs the base update.
- Projectiles.SetSpeedRescales: a motion with negative speed, which only the bounce parameter can produce, is scaled by s / speed, where the original scales by s over the (positive) magnitude.
- Rounds.HomingStep: the rocket's own move and steering are stated in `Rockets.RocketStep`; inside the walk the rocket's update is bounded (id, owner, kills only, expiry, no fragments), not pinned.
- Projectiles.ClaimAll: states the frame of the claim loop, not which power-ups are claimed in a tick where one claim makes the loop skip the next.
- Rounds.NewRound: builds its maze with the clamped openness (`Rounds.Openness`), not the code's `random() · size · 0.15`, under which removeWalls never ends for size ≥ 7 and a large draw. It also requires no more players than cells (height · width), as with more the original's placement retry loop never ends.
- Rounds.RoundMaze: uses the same clamped openness; the code as written is `Rounds.OpennessAsWritten`.
- MazeMap.GenerateSvg: the SVG path string is modelled as a list of M/L commands with integer coordinates; the text formatting (`"M x y L x y "`) is not modelled.
- MazeMap.ParsePathData: parses that command list, not the path text.
- Rounds.Restart: the new round is built on the game's `playerList`, which the model takes to be this round's players; the lobby that keeps that list is not modelled.
- Rounds.Restart: with more players than cells the original's placement never ends; the model returns `hung`, and `Rounds.Tick` then reports `stopped` with nothing said about the state.
- Rounds.Tick: the new round's own interval, its `roundStart` emit and its 30 Hz ticks are not modelled; the tick returns the started round.
- Lobby and game registry (game.js) apart from `newRound`, the client, and the superseded .ts copies are not part of this model.

## Findings

| source | as written | input that shows it | evidently intended | confidence | as-written member | corrected member |
|---|---|---|---|---|---|---|
| server/common/structures/projectiles.js:318 | `splice(indexOf(this), 1)` with `indexOf` = −1 removes the last projectile of the round | a land mine past its lifetime: the base update already removed it (line 48), so the explosion's splice removes whichever projectile is last in the list | remove the projectile only if it is still in the list | high; not executed | Projectiles.ExpiredMineSplicesTwice | Projectiles.CorrectedAbsentNoop |
| server/common/structures/projectiles.js:58 | the same splice once per player hit; a second hit removes a bystander | a damaging projectile at a point inside two alive players' boxes | remove the projectile once | high; not executed | Projectiles.DoubleHitRemovesBystander | Projectiles.CorrectedRemovesOnlySelf |
| server/common/structures/projectiles.js:263-265 | in the target's cell the path has one entry, `nextNode` is undefined and the update returns at line 239 before the same-cell steering | a rocket, past its lock, in the same cell as its target | steer at the target player's position | high; not executed | Rockets.SameCellNeverAims | Rockets.SameCellAimsAtPlayer |
| server/common/structures/round.js:39 | openness `random() · size · 0.15` exceeds 1 for size ≥ 7, and removeWalls then loops forever looking for a closed wall | game size 7, draw 0.99: a 16 × 24 maze has 345 closed walls after the tree but toAdd = 358 | keep openness in [0, 1], as removeWalls' documentation requires | medium; not executed | Rounds.LargeMapOpennessOverflows | Rounds.OpennessLeavesRoom |
| server/common/structures/round.js:84-89 | the 500 s failsafe is armed right after `newRound`, whose `endRound` was the only place clearing it, so the ended round's timer survives and calls `newRound` again 500 s later | a tick with nobody alive and the game registered: the next round starts, then the old round sets `endRoundTimeout` | arm the failsafe only for a round that was not replaced | medium; not executed | Rounds.FailsafeOutlivesRound | Rounds.FailsafeOnlyUnreplaced |
