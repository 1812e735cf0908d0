# SceneMain: the per-frame rules of The Defenders' main scene

This project models the decisions that the main Phaser scene of the arcade
shooter (`js/SceneMain.js`) makes itself, with Phaser's groups, timer,
physics and keyboard replaced by plain state and parameters:

- the **spawn timer callback**, which picks a GunShip, a ChaserShip, a
  CarrierShip or nothing from two random draws and the current ChaserShip
  count (capped at 5), and adds the scaled ship to the enemy group;
- **`getEnemiesByType`**, the index loop that collects the enemies of one type;
- the **player part of `update`**: nothing while the player is dead,
  otherwise the player's own update, LEFT taking priority over RIGHT, and the
  fire key (held: `isShooting` set; released: `timerShootTick` reset to
  `timerShootDelay - 1` and `isShooting` cleared);
- the **three reaping loops** of `update`, which remove every visited entity
  that has left the playfield (one display width beyond the left or right
  edge, four display heights above the top, one display height below the
  bottom), calling an enemy's `onDestroy` first when it defines one;
- the **three collision callbacks** registered in `create`, each taking an
  already detected overlapping pair.

`playfield.dfy` (module `Playfield`) holds the records, the event log, the
pure rules (spawn choice, bounds test, type filter, the result of a reaping
loop) and the lemmas about them. `scene_main.dfy` (module `SceneMain`) holds
the class `Scene`, whose fields are the player's data, the three groups and
the log, and whose methods run the source's branches and loops on them; each
method's postcondition ties its new state to the functions of `Playfield`.

Calls into the sprite classes (`explode(fx)`, `onDestroy()`, each sprite's own
`update()`, `moveLeft()`, `moveRight()`) are recorded in the `log` field in the
order the scene makes them; their bodies are defined elsewhere and are not
part of this model, so they change no other state here. The random draws,
the properties a ship constructor gives the new sprite (frame size and
whether it defines `onDestroy`) and the keyboard state are method parameters.

Display sizes are exact: an entity stores its frame size and its scale in
tenths (10..20 for a spawned ship), and the bounds test compares ten times
the position with frame size times scale, so no rounding enters.

The reaping loops call `destroy()` on the group they iterate while the index
still advances, so the entity that slides into the freed slot is not visited
in that frame. The model keeps this literally: a pass removes exactly the
visited entities that are out of bounds (`ReapRemovesExactlyVisitedOutside`),
`ReapSkipsSuccessor` shows that when the entity at the loop index and the
next one are both off-screen, the second survives the pass, and
`ReapFramesClears` shows that, when nothing moves, as many passes as the
group has members leave no off-screen entity.
The vertical margin is four display heights above the top
(`y < -displayHeight * 4`) and one below the bottom.

## Model

| member | source | states |
|---|---|---|
| Playfield.SpawnKind | js/SceneMain.js:105-127 | a GunShip exactly when the first draw is at least 3; a CarrierShip exactly when the first draw is below 3 and the second below 5; a ChaserShip exactly when the first draw is below 3, the second at least 5 and fewer than 5 ChaserShips exist; nothing exactly in the remaining case |
| Playfield.NewShip | js/SceneMain.js:106-126 | a ship built by the timer callback has the chosen type, the drawn x, y = 0 and is alive |
| Playfield.Spawned | js/SceneMain.js:103-132 | a tick keeps every existing enemy in place and appends at most one, with the type SpawnKind chose, y = 0, the drawn x and scale and the constructor's frame size and hook; it appends none exactly when SpawnKind says nothing |
| Playfield.SpawnRespectsCap | js/SceneMain.js:112-120 | a tick never takes the ChaserShip count from at most 5 to above 5, adds at most one ChaserShip, and at or above the cap leaves the count unchanged |
| Playfield.SpawnSeries | js/SceneMain.js:100-136 | a series of n timer ticks keeps every existing enemy in its slot and adds at most n enemies |
| Playfield.SpawnSeriesRespectsCap | js/SceneMain.js:100-136 | whatever the draws of any number of ticks, spawning alone never lets the ChaserShips exceed 5 |
| SceneMain.Scene.SpawnTick | js/SceneMain.js:102-133 | the callback's branches change only the enemy group, to Spawned of the old one; at most one enemy is added, with y = 0, x in [0, width] and scale tenths in [10, 20]; the chaser cap is kept |
| Playfield.OfKind | js/SceneMain.js:170-179 | the type filter never returns more entities than the group holds |
| Playfield.OfKindExactly | js/SceneMain.js:170-179 | an entity is in the result exactly when it is in the group with the given type, as many times as in the group; the filter distributes over concatenation, so it keeps group order |
| Playfield.Chasers | js/SceneMain.js:113 | the ChaserShip count is at most the group size, and zero exactly when the group holds no ChaserShip |
| SceneMain.Scene.GetEnemiesByType | js/SceneMain.js:170-179 | the index loop with push returns exactly OfKind of the enemy group, which it does not modify |
| Playfield.InputStep | js/SceneMain.js:183-201 | a dead player is left unchanged and nothing is called; otherwise the player's update comes first, LEFT gives only moveLeft even with RIGHT down, RIGHT alone gives moveRight; fire held sets isShooting and leaves timerShootTick; fire released sets timerShootTick to timerShootDelay - 1 and clears isShooting; isDead, timerShootDelay and x never change |
| SceneMain.Scene.HandleInput | js/SceneMain.js:183-201 | the player part of update changes only the player's data and the log, as InputStep says |
| Playfield.VisitEvents | js/SceneMain.js:207-218 | visiting an entity logs its update first, then onDestroy exactly when the loop calls hooks, the entity defines one and it is out of bounds |
| Playfield.OutOfBoundsMargins | js/SceneMain.js:209-212 | the bounds test shared by the three loops keeps everything on the playfield and anything up to four display heights above the top; its last two clauses restate the test's own conditions for more than one display height below the bottom and more than one display width beyond either side |
| Playfield.Survivors | js/SceneMain.js:204-220 | a reaping pass never leaves more entities than it started with; which ones it removes is stated by ReapRemovesExactlyVisitedOutside |
| Playfield.Visited | js/SceneMain.js:204-206 | the entities a pass reads, one per loop iteration, number at most the members from the loop index on |
| Playfield.ReapRemovesExactlyVisitedOutside | js/SceneMain.js:204-220 | the group splits exactly (as a multiset) into the survivors and the visited entities that are out of bounds: every visited out-of-bounds entity is removed, and nothing else is |
| Playfield.ReapLogsVisits | js/SceneMain.js:207 | the updates a pass logs are exactly those of the visited entities, in visiting order |
| Playfield.ReapKeepsInside | js/SceneMain.js:209-212 | in-bounds entities are never removed: the in-bounds members after a pass are exactly those before, in order |
| Playfield.ReapOnlyRemoves | js/SceneMain.js:213-218 | a pass only removes (the survivors are a sub-multiset of the group), so no count by type, such as the ChaserShips, grows; together with ReapKeepsInside, what it removes was out of bounds |
| Playfield.ReapKeepsPrefix | js/SceneMain.js:204-205 | a pass resumed at index i removes none of the entities before i: they survive unchanged, in their slots |
| Playfield.ReapVisitsFromIndex | js/SceneMain.js:204-205 | a pass resumed at index i visits none of the entities before i: everything it reads comes from index i on, at most as often as it occurs there |
| Playfield.ReapMakesProgress | js/SceneMain.js:204-220 | a group with an out-of-bounds entity at or after the loop index loses at least one member in the pass |
| Playfield.ReapKeepsInBoundsGroup | js/SceneMain.js:209-218 | a group entirely within bounds is left as it is and no onDestroy is logged |
| Playfield.RemoveAt | js/SceneMain.js:217 | destroy() takes exactly one member out of its group: one fewer member, those before the index in place, those after it moved down one slot |
| Playfield.RemoveAtMultiset | js/SceneMain.js:217 | destroy() removes exactly one occurrence of the destroyed entity and nothing else |
| Playfield.ReapSkipsSuccessor | js/SceneMain.js:204-220 | when the entities at the loop index and the one after it are both out of bounds, the pass removes the first, and the second, sliding into its slot, survives there |
| Playfield.ReapHooks | js/SceneMain.js:213-218 | every onDestroy a pass logs is that of an out-of-bounds entity that defines one, in the enemy loop only; the laser loops log none |
| Playfield.ReapLogsHooks | js/SceneMain.js:213-216 | the enemy loop calls onDestroy for exactly the visited entities that are out of bounds and define one, in visiting order |
| Playfield.ReapFramesClears | js/SceneMain.js:204-250 | with nothing moving, as many passes as the group has members leave no out-of-bounds entity |
| SceneMain.ReapGroup | js/SceneMain.js:204-250 | each of the three index loops leaves exactly Survivors of its group and appends exactly its ReapEvents to the log |
| SceneMain.Scene.Update | js/SceneMain.js:181-251 | a frame applies InputStep to the player, then reaps the enemies (with onDestroy), the enemy lasers and the player lasers in that order; in-bounds enemies all remain and the ChaserShip count does not grow |
| SceneMain.Scene.OnPlayerMeetsEnemy | js/SceneMain.js:139-146 | with both alive the log gains player explode(false), player onDestroy, enemy explode(true) in that order; otherwise nothing happens; no group changes |
| SceneMain.Scene.OnPlayerLaserHitsEnemy | js/SceneMain.js:149-157 | with an enemy present the log gains its onDestroy only if it defines one, then its explode(true), and exactly that laser leaves playerLasers; without an enemy nothing happens |
| SceneMain.Scene.OnPlayerMeetsEnemyLaser | js/SceneMain.js:160-167 | with both alive the log gains player explode(false) then player onDestroy and exactly that laser leaves enemyLasers; otherwise nothing happens |
| SceneMain.Scene.constructor | js/SceneMain.js:79-97 | the player starts at half the width and the three groups and the log start empty |

## Left out

- Asset loading, animations, sounds and their playback (`preload` and the start of `create`): framework I/O.
- The scrolling background and its update loop: cosmetic, and its class is not part of this model.
- The bodies of `Player`, `GunShip`, `ChaserShip`, `CarrierShip`, `explode`, `onDestroy`, `moveLeft`, `moveRight` and each sprite's `update`: they are defined in files that are not part of this model, so they are only logged. In particular `explode` does not set `isDead` here, a sprite's `update` does not move it, and no laser or carrier fragment is created; consequently the shoot cooldown of the player and the re-trigger behaviour of hooks on sprites that are already exploding are not modelled.
- Phaser's overlap and collider detection and the order in which it runs the three callbacks: library behaviour; each callback takes the overlapping pair as input (group indices, and `None` for the missing enemy the laser callback tests for).
- The 1000 ms looping timer and `Phaser.Math.Between`: the callback is a method and the draws are its parameters, required to lie in the ranges `Between` returns.
- Floating point: scales are integer tenths and positions whole pixels; the player's start `width * 0.5` is `width / 2`, and its `height * 0.9` is not modelled because the player's y is never read by the scene.
- The `if (enemy)` and `if (laser)` tests inside the reaping loops: the entity is always a member of the group there, so the test always holds.
