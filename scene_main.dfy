/** The main scene: its player, its three groups and the log of calls it
    makes into the sprite classes. Each method is one of the scene's own
    decisions: the spawn timer callback, getEnemiesByType, the per-frame
    update and the three collision callbacks. */
module SceneMain {
  import opened Playfield

  class Scene {
    const width: int
    const height: int
    var player: Player
    var enemies: seq<Entity>
    var enemyLasers: seq<Entity>
    var playerLasers: seq<Entity>
    var log: seq<Event>

    /** The state `create` sets up: the player at half the width (its other
        data come from its own constructor) and three empty groups. */
    constructor (width: int, height: int, p: Player)
      ensures this.width == width && this.height == height
      ensures player == p.(x := width / 2)
      ensures enemies == [] && enemyLasers == [] && playerLasers == [] && log == []
    {
      this.width := width;
      this.height := height;
      player := p.(x := width / 2);
      enemies, enemyLasers, playerLasers, log := [], [], [], [];
    }

    /** The enemies whose type is `t`, collected by an index loop. */
    method GetEnemiesByType(t: Kind) returns (arr: seq<Entity>)
      ensures arr == OfKind(enemies, t)
    {
      arr := [];
      var i := 0;
      while i < |enemies|
        invariant 0 <= i <= |enemies|
        invariant arr == OfKind(enemies[..i], t)
      {
        var enemy := enemies[i];
        assert enemies[..i + 1][..i] == enemies[..i];
        if enemy.kind == t {
          arr := arr + [enemy];
        }
        i := i + 1;
      }
      assert enemies[..i] == enemies;
    }

    /** The callback of the spawn timer, with its random draws as `d` and the
        ship constructors' output as `blueprint`. */
    method SpawnTick(d: Draws, blueprint: Kind -> Blueprint)
      requires DrawsInRange(d, width)
      modifies this`enemies
      ensures enemies == Spawned(old(enemies), d, blueprint)
      ensures |enemies| <= |old(enemies)| + 1
      ensures |enemies| == |old(enemies)| + 1 ==>
        enemies[|old(enemies)|].y == 0 && 0 <= enemies[|old(enemies)|].x <= width &&
        10 <= enemies[|old(enemies)|].scaleTenths <= 20
      ensures Chasers(old(enemies)) <= ChaserCap ==> Chasers(enemies) <= ChaserCap
      ensures Chasers(old(enemies)) >= ChaserCap ==> Chasers(enemies) == Chasers(old(enemies))
    {
      var enemy: Option<Entity> := None;
      if d.kindDraw >= 3 {
        enemy := Some(NewShip(GunShip, d.x, blueprint(GunShip)));
      } else if d.chaserDraw >= 5 {
        var chasers := GetEnemiesByType(ChaserShip);
        if |chasers| < ChaserCap {
          enemy := Some(NewShip(ChaserShip, d.x, blueprint(ChaserShip)));
        }
      } else {
        enemy := Some(NewShip(CarrierShip, d.x, blueprint(CarrierShip)));
      }

      if enemy.Some? {
        enemy := Some(enemy.value.(scaleTenths := d.scaleTenths));
        enemies := enemies + [enemy.value];
      }
      SpawnRespectsCap(old(enemies), d, blueprint);
    }

    /** The player part of a frame: nothing when the player is dead; otherwise
        its own update, LEFT before RIGHT, and the fire key. */
    method HandleInput(left: bool, right: bool, space: bool)
      modifies this`player, this`log
      ensures player == InputStep(old(player), left, right, space).0
      ensures log == old(log) + InputStep(old(player), left, right, space).1
    {
      if !player.isDead {
        log := log + [Updated(ThePlayer)];

        if left {
          log := log + [MoveLeft];
        } else if right {
          log := log + [MoveRight];
        }

        if space {
          player := player.(isShooting := true);
        } else {
          player := player.(timerShootTick := player.timerShootDelay - 1);
          player := player.(isShooting := false);
        }
      }
    }

    /** One whole frame: the player part, then the reaping loops over the
        enemies (with their onDestroy), the enemy lasers and the player lasers. */
    method Update(left: bool, right: bool, space: bool)
      modifies this`player, this`log, this`enemies, this`enemyLasers, this`playerLasers
      ensures player == InputStep(old(player), left, right, space).0
      ensures enemies == Survivors(old(enemies), 0, width, height)
      ensures enemyLasers == Survivors(old(enemyLasers), 0, width, height)
      ensures playerLasers == Survivors(old(playerLasers), 0, width, height)
      ensures log == old(log) + InputStep(old(player), left, right, space).1
                     + ReapEvents(old(enemies), 0, width, height, true)
                     + ReapEvents(old(enemyLasers), 0, width, height, false)
                     + ReapEvents(old(playerLasers), 0, width, height, false)
      ensures Filter(enemies, InsideOf(width, height)) == Filter(old(enemies), InsideOf(width, height))
      ensures Chasers(enemies) <= Chasers(old(enemies))
    {
      HandleInput(left, right, space);
      enemies, log := ReapGroup(enemies, log, width, height, true);
      enemyLasers, log := ReapGroup(enemyLasers, log, width, height, false);
      playerLasers, log := ReapGroup(playerLasers, log, width, height, false);
      ReapKeepsInside(old(enemies), 0, width, height);
      ReapOnlyRemoves(old(enemies), 0, width, height, KindIs(ChaserShip));
    }

    /** Player against enemy: only when both are alive, the player explodes
        without fx and runs its onDestroy, then the enemy explodes with fx. */
    method OnPlayerMeetsEnemy(ei: nat)
      requires ei < |enemies|
      modifies this`log
      ensures !old(player.isDead) && !old(enemies[ei].isDead) ==>
        log == old(log) + [Explode(ThePlayer, false), OnDestroy(ThePlayer), Explode(Thing(old(enemies[ei])), true)]
      ensures old(player.isDead) || old(enemies[ei].isDead) ==> log == old(log)
    {
      var enemy := enemies[ei];
      if !player.isDead && !enemy.isDead {
        log := log + [Explode(ThePlayer, false)];
        log := log + [OnDestroy(ThePlayer)];
        log := log + [Explode(Thing(enemy), true)];
      }
    }

    /** Player laser against enemy (`None` standing for a missing enemy): the
        enemy's onDestroy if it has one, its explosion with fx, and the removal
        of that laser. Neither side's isDead is consulted. */
    method OnPlayerLaserHitsEnemy(li: nat, ei: Option<nat>)
      requires li < |playerLasers|
      requires ei.Some? ==> ei.value < |enemies|
      modifies this`log, this`playerLasers
      ensures ei.None? ==> log == old(log) && playerLasers == old(playerLasers)
      ensures ei.Some? ==>
        var e := old(enemies[ei.value]);
        log == old(log) + (if e.hasOnDestroy then [OnDestroy(Thing(e))] else []) + [Explode(Thing(e), true)] &&
        playerLasers == RemoveAt(old(playerLasers), li)
    {
      if ei.Some? {
        var enemy := enemies[ei.value];
        if enemy.hasOnDestroy {
          log := log + [OnDestroy(Thing(enemy))];
        }
        log := log + [Explode(Thing(enemy), true)];
        playerLasers := RemoveAt(playerLasers, li);
      }
    }

    /** Player against enemy laser: only when both are alive, the player
        explodes without fx and runs its onDestroy, and that laser is removed. */
    method OnPlayerMeetsEnemyLaser(li: nat)
      requires li < |enemyLasers|
      modifies this`log, this`enemyLasers
      ensures !old(player.isDead) && !old(enemyLasers[li].isDead) ==>
        log == old(log) + [Explode(ThePlayer, false), OnDestroy(ThePlayer)] &&
        enemyLasers == RemoveAt(old(enemyLasers), li)
      ensures old(player.isDead) || old(enemyLasers[li].isDead) ==>
        log == old(log) && enemyLasers == old(enemyLasers)
    {
      var laser := enemyLasers[li];
      if !player.isDead && !laser.isDead {
        log := log + [Explode(ThePlayer, false)];
        log := log + [OnDestroy(ThePlayer)];
        enemyLasers := RemoveAt(enemyLasers, li);
      }
    }
  }

  /** One reaping loop over a group: each member's update is logged; a member
      out of bounds gets its onDestroy (when `hooks` and it has one) and is
      removed, while the index still advances. */
  method ReapGroup(group: seq<Entity>, log: seq<Event>, width: int, height: int, hooks: bool)
    returns (survivors: seq<Entity>, log': seq<Event>)
    ensures survivors == Survivors(group, 0, width, height)
    ensures log' == log + ReapEvents(group, 0, width, height, hooks)
  {
    var g, l, i := group, log, 0;
    while i < |g|
      invariant Survivors(g, i, width, height) == Survivors(group, 0, width, height)
      invariant l + ReapEvents(g, i, width, height, hooks) == log + ReapEvents(group, 0, width, height, hooks)
      decreases |g| - i
    {
      var e := g[i];
      ghost var g0, l0 := g, l;
      l := l + [Updated(Thing(e))];
      if OutOfBounds(e, width, height) {
        if hooks && e.hasOnDestroy {
          l := l + [OnDestroy(Thing(e))];
        }
        g := RemoveAt(g, i);
      }
      ghost var visit, rest := VisitEvents(e, width, height, hooks), ReapEvents(g, i + 1, width, height, hooks);
      assert l == l0 + visit;
      assert ReapEvents(g0, i, width, height, hooks) == visit + rest;
      assert Survivors(g0, i, width, height) == Survivors(g, i + 1, width, height);
      assert (l0 + visit) + rest == l0 + (visit + rest);
      i := i + 1;
    }
    survivors, log' := g, l;
  }
}
