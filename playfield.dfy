/** Value-level model of the playfield of the arcade shooter's main scene:
    entity records, the event log, the spawn policy of the enemy timer, the
    type filter and the reaping pass, with the lemmas that state what they
    promise. The class in module SceneMain runs these rules on its state. */
module Playfield {

  datatype Option<T> = None | Some(value: T)

  /** The `type` data value each entity carries. */
  datatype Kind = GunShip | ChaserShip | CarrierShip | EnemyLaser | PlayerLaser

  /** An enemy or a laser. Positions are whole pixels; the sprite's frame size
      and the scale (in tenths, 10 meaning 1.0) give the display size, so that
      displayWidth is frameWidth * scaleTenths / 10. */
  datatype Entity = Entity(
    kind: Kind,
    x: int,
    y: int,
    frameWidth: nat,
    frameHeight: nat,
    scaleTenths: nat,
    isDead: bool,
    hasOnDestroy: bool)
  {
    /** Ten times displayWidth, exact. */
    function DisplayWidthTenths(): int { frameWidth * scaleTenths }

    /** Ten times displayHeight, exact. */
    function DisplayHeightTenths(): int { frameHeight * scaleTenths }
  }

  /** The data values of the player sprite that the scene reads and writes. */
  datatype Player = Player(
    isDead: bool,
    isShooting: bool,
    timerShootTick: int,
    timerShootDelay: int,
    x: int)

  /** Whom a logged call was made on. */
  datatype Actor = ThePlayer | Thing(e: Entity)

  /** Calls into code that lives outside the scene, in the order made. */
  datatype Event =
    | Updated(who: Actor)
    | MoveLeft
    | MoveRight
    | Explode(who: Actor, withFx: bool)
    | OnDestroy(who: Actor)

  /** What a ship constructor gives the new sprite besides its position. */
  datatype Blueprint = Blueprint(frameWidth: nat, frameHeight: nat, hasOnDestroy: bool)

  /** The random draws one spawn tick may use: the kind draw and the chaser
      draw (both 0..10), the x position (0..width) and the scale (10..20). */
  datatype Draws = Draws(kindDraw: int, chaserDraw: int, x: int, scaleTenths: nat)

  /** The largest ChaserShip population the spawn timer builds up to. */
  const ChaserCap: nat := 5

  // ---------------------------------------------------------------------------
  // Sequence helpers: the group filter and the removal done by destroy()

  /** The elements of `s` that satisfy `keep`, in order. */
  function Filter<T>(s: seq<T>, keep: T -> bool): (r: seq<T>)
    ensures |r| <= |s|
  {
    if s == [] then []
    else Filter(s[..|s| - 1], keep) + (if keep(s[|s| - 1]) then [s[|s| - 1]] else [])
  }

  lemma {:induction false} FilterAppend<T>(a: seq<T>, b: seq<T>, keep: T -> bool)
    ensures Filter(a + b, keep) == Filter(a, keep) + Filter(b, keep)
    decreases |b|
  {
    if b == [] {
      assert a + b == a;
    } else {
      var b' := b[..|b| - 1];
      assert (a + b)[..|a + b| - 1] == a + b';
      assert (a + b)[|a + b| - 1] == b[|b| - 1];
      FilterAppend(a, b', keep);
    }
  }

  /** Filter keeps every satisfying element as often as it occurs and drops
      every other one. */
  lemma {:induction false} FilterCounts<T>(s: seq<T>, keep: T -> bool)
    ensures forall x :: multiset(Filter(s, keep))[x] == if keep(x) then multiset(s)[x] else 0
    decreases |s|
  {
    if s != [] {
      var s' := s[..|s| - 1];
      assert s == s' + [s[|s| - 1]];
      FilterCounts(s', keep);
    }
  }

  /** `s` with its element at index `i` taken out. */
  function RemoveAt<T>(s: seq<T>, i: nat): (r: seq<T>)
    requires i < |s|
    ensures |r| == |s| - 1
    ensures forall j :: 0 <= j < i ==> r[j] == s[j]
    ensures forall j :: i <= j < |r| ==> r[j] == s[j + 1]
  {
    s[..i] + s[i + 1..]
  }

  /** Removing index `i` removes exactly one occurrence of `s[i]`. */
  lemma RemoveAtMultiset<T>(s: seq<T>, i: nat)
    requires i < |s|
    ensures multiset(RemoveAt(s, i)) == multiset(s) - multiset{s[i]}
  {
    assert s == s[..i] + [s[i]] + s[i + 1..];
  }

  lemma FilterSnoc<T>(s: seq<T>, x: T, keep: T -> bool)
    ensures Filter(s + [x], keep) == Filter(s, keep) + if keep(x) then [x] else []
  {
    assert (s + [x])[..|s + [x]| - 1] == s;
  }

  lemma FilterRemoveAt<T>(s: seq<T>, i: nat, keep: T -> bool)
    requires i < |s|
    ensures |Filter(RemoveAt(s, i), keep)| <= |Filter(s, keep)|
    ensures !keep(s[i]) ==> Filter(RemoveAt(s, i), keep) == Filter(s, keep)
  {
    var front, x, back := s[..i], s[i], s[i + 1..];
    var mid: seq<T> := if keep(x) then [x] else [];
    assert Filter(s, keep) == Filter(front, keep) + mid + Filter(back, keep) by {
      assert s == (front + [x]) + back;
      FilterAppend(front + [x], back, keep);
      FilterSnoc(front, x, keep);
    }
    assert Filter(RemoveAt(s, i), keep) == Filter(front, keep) + Filter(back, keep) by {
      assert RemoveAt(s, i) == front + back;
      FilterAppend(front, back, keep);
    }
  }

  // ---------------------------------------------------------------------------
  // getEnemiesByType

  function KindIs(t: Kind): Entity -> bool
  {
    (e: Entity) => e.kind == t
  }

  /** The members of a group whose type is `t`, in group order. */
  function OfKind(s: seq<Entity>, t: Kind): (r: seq<Entity>)
    ensures |r| <= |s|
  {
    Filter(s, KindIs(t))
  }

  /** The number of ChaserShips in a group. */
  function Chasers(s: seq<Entity>): (r: nat)
    ensures r <= |s|
    ensures r == 0 <==> forall e :: e in s ==> e.kind != ChaserShip
  {
    OfKindExactly(s, ChaserShip);
    assert |OfKind(s, ChaserShip)| == 0 <== forall e :: e in s ==> e.kind != ChaserShip by {
      if |OfKind(s, ChaserShip)| != 0 {
        assert OfKind(s, ChaserShip)[0] in OfKind(s, ChaserShip);
      }
    }
    |OfKind(s, ChaserShip)|
  }

  /** OfKind selects exactly the members of type `t`, each with its
      multiplicity, and distributes over concatenation (so it keeps order). */
  lemma OfKindExactly(s: seq<Entity>, t: Kind)
    ensures forall e :: e in OfKind(s, t) <==> e in s && e.kind == t
    ensures forall e :: multiset(OfKind(s, t))[e] == if e.kind == t then multiset(s)[e] else 0
    ensures forall a, b :: s == a + b ==> OfKind(s, t) == OfKind(a, t) + OfKind(b, t)
  {
    FilterCounts(s, KindIs(t));
    forall e ensures e in OfKind(s, t) <==> e in s && e.kind == t {
      assert e in OfKind(s, t) <==> multiset(OfKind(s, t))[e] > 0;
      assert e in s <==> multiset(s)[e] > 0;
    }
    forall a, b | s == a + b ensures OfKind(s, t) == OfKind(a, t) + OfKind(b, t) {
      FilterAppend(a, b, KindIs(t));
    }
  }

  // ---------------------------------------------------------------------------
  // Spawn policy of the 1000 ms timer

  /** The range each random draw comes from. */
  predicate DrawsInRange(d: Draws, width: int)
  {
    0 <= d.kindDraw <= 10 && 0 <= d.chaserDraw <= 10 &&
    0 <= d.x <= width && 10 <= d.scaleTenths <= 20
  }

  /** Which ship one tick creates, if any, given the two draws and the current
      number of ChaserShips. */
  function SpawnKind(kindDraw: int, chaserDraw: int, chasers: nat): (r: Option<Kind>)
    ensures r == Some(GunShip) <==> kindDraw >= 3
    ensures r == Some(ChaserShip) <==> kindDraw < 3 && chaserDraw >= 5 && chasers < ChaserCap
    ensures r == Some(CarrierShip) <==> kindDraw < 3 && chaserDraw < 5
    ensures r == None <==> kindDraw < 3 && chaserDraw >= 5 && chasers >= ChaserCap
  {
    if kindDraw >= 3 then Some(GunShip)
    else if chaserDraw >= 5 then
      (if chasers < ChaserCap then Some(ChaserShip) else None)
    else Some(CarrierShip)
  }

  /** A freshly constructed ship at (x, 0), before setScale. */
  function NewShip(k: Kind, x: int, bp: Blueprint): (e: Entity)
    ensures e.kind == k && e.x == x && e.y == 0 && !e.isDead
  {
    Entity(k, x, 0, bp.frameWidth, bp.frameHeight, 10, false, bp.hasOnDestroy)
  }

  /** The enemy group after one spawn tick. */
  function Spawned(enemies: seq<Entity>, d: Draws, blueprint: Kind -> Blueprint): (r: seq<Entity>)
    ensures |enemies| <= |r| <= |enemies| + 1 && r[..|enemies|] == enemies
    ensures |r| == |enemies| + 1 ==>
      var e := r[|enemies|];
      Some(e.kind) == SpawnKind(d.kindDraw, d.chaserDraw, Chasers(enemies)) &&
      e.y == 0 && e.x == d.x && e.scaleTenths == d.scaleTenths && !e.isDead &&
      e.frameWidth == blueprint(e.kind).frameWidth &&
      e.frameHeight == blueprint(e.kind).frameHeight &&
      e.hasOnDestroy == blueprint(e.kind).hasOnDestroy
    ensures |r| == |enemies| <==> SpawnKind(d.kindDraw, d.chaserDraw, Chasers(enemies)) == None
  {
    match SpawnKind(d.kindDraw, d.chaserDraw, Chasers(enemies))
    case None => enemies
    case Some(k) => enemies + [NewShip(k, d.x, blueprint(k)).(scaleTenths := d.scaleTenths)]
  }

  /** A spawn tick never takes the ChaserShip count above the cap, and at or
      above the cap it adds no ChaserShip. */
  lemma SpawnRespectsCap(enemies: seq<Entity>, d: Draws, blueprint: Kind -> Blueprint)
    ensures Chasers(enemies) <= ChaserCap ==> Chasers(Spawned(enemies, d, blueprint)) <= ChaserCap
    ensures Chasers(enemies) >= ChaserCap ==> Chasers(Spawned(enemies, d, blueprint)) == Chasers(enemies)
    ensures Chasers(Spawned(enemies, d, blueprint)) <= Chasers(enemies) + 1
  {
    var r := Spawned(enemies, d, blueprint);
    if |r| == |enemies| + 1 {
      assert r == enemies + [r[|enemies|]];
      FilterAppend(enemies, [r[|enemies|]], KindIs(ChaserShip));
      assert Filter([r[|enemies|]], KindIs(ChaserShip)) ==
        if r[|enemies|].kind == ChaserShip then [r[|enemies|]] else [];
    }
  }

  /** The enemy group after a series of spawn ticks and nothing else. */
  function SpawnSeries(enemies: seq<Entity>, ticks: seq<Draws>, blueprint: Kind -> Blueprint): (r: seq<Entity>)
    ensures |r| <= |enemies| + |ticks|
    ensures |r| >= |enemies| && r[..|enemies|] == enemies
    decreases |ticks|
  {
    if ticks == [] then enemies
    else SpawnSeries(Spawned(enemies, ticks[0], blueprint), ticks[1..], blueprint)
  }

  /** Whatever the draws, spawning alone never lets the ChaserShips exceed
      the cap. */
  lemma {:induction false} SpawnSeriesRespectsCap(enemies: seq<Entity>, ticks: seq<Draws>, blueprint: Kind -> Blueprint)
    requires Chasers(enemies) <= ChaserCap
    ensures Chasers(SpawnSeries(enemies, ticks, blueprint)) <= ChaserCap
    decreases |ticks|
  {
    if ticks != [] {
      SpawnRespectsCap(enemies, ticks[0], blueprint);
      SpawnSeriesRespectsCap(Spawned(enemies, ticks[0], blueprint), ticks[1..], blueprint);
    }
  }

  // ---------------------------------------------------------------------------
  // Player input

  /** The player's data and the calls made by the player part of a frame. */
  function InputStep(p: Player, left: bool, right: bool, space: bool): (r: (Player, seq<Event>))
    ensures p.isDead ==> r == (p, [])
    ensures !p.isDead ==> |r.1| >= 1 && r.1[0] == Updated(ThePlayer)
    ensures !p.isDead && left ==> r.1 == [Updated(ThePlayer), MoveLeft]
    ensures !p.isDead && !left && right ==> r.1 == [Updated(ThePlayer), MoveRight]
    ensures !p.isDead && !left && !right ==> r.1 == [Updated(ThePlayer)]
    ensures r.0.isDead == p.isDead && r.0.timerShootDelay == p.timerShootDelay && r.0.x == p.x
    ensures !p.isDead ==> r.0.isShooting == space
    ensures !p.isDead && space ==> r.0.timerShootTick == p.timerShootTick
    ensures !p.isDead && !space ==> r.0.timerShootTick == p.timerShootDelay - 1
  {
    if p.isDead then (p, [])
    else
      var moves := if left then [MoveLeft] else if right then [MoveRight] else [];
      var p' := if space then p.(isShooting := true)
                else p.(timerShootTick := p.timerShootDelay - 1, isShooting := false);
      (p', [Updated(ThePlayer)] + moves)
  }

  // ---------------------------------------------------------------------------
  // Reaping pass

  /** The bounds test of the reaping loops: beyond one display width left or
      right, beyond four display heights above, beyond one display height
      below. Both sides are scaled by ten so that no rounding is involved. */
  predicate OutOfBounds(e: Entity, width: int, height: int)
  {
    10 * e.x < -e.DisplayWidthTenths() ||
    10 * e.x > 10 * width + e.DisplayWidthTenths() ||
    10 * e.y < -(e.DisplayHeightTenths() * 4) ||
    10 * e.y > 10 * height + e.DisplayHeightTenths()
  }

  /** The margins of the bounds test, asymmetric in y: four display heights
      above the top, one below the bottom, one to either side. */
  lemma OutOfBoundsMargins(e: Entity, width: int, height: int)
    // anything on the playfield itself is kept
    ensures 0 <= e.x <= width && 0 <= e.y <= height ==> !OutOfBounds(e, width, height)
    // entering from above is allowed up to four display heights
    ensures 0 <= e.x <= width && 0 <= height && -(e.DisplayHeightTenths() * 4) <= 10 * e.y <= 0 ==>
      !OutOfBounds(e, width, height)
    // below, and to either side, one display size is the whole margin (these
    // two clauses restate the conditions of the test itself)
    ensures 10 * e.y > 10 * height + e.DisplayHeightTenths() ==> OutOfBounds(e, width, height)
    ensures 10 * e.x < -e.DisplayWidthTenths() || 10 * e.x > 10 * width + e.DisplayWidthTenths() ==>
      OutOfBounds(e, width, height)
  {
  }

  function InsideOf(width: int, height: int): Entity -> bool
  {
    (e: Entity) => !OutOfBounds(e, width, height)
  }

  function OutsideOf(width: int, height: int): Entity -> bool
  {
    (e: Entity) => OutOfBounds(e, width, height)
  }

  /** The calls made while visiting one entity: its own update, then, if it is
      out of bounds, its onDestroy when the loop calls hooks and it has one. */
  function VisitEvents(e: Entity, width: int, height: int, hooks: bool): (r: seq<Event>)
    ensures 1 <= |r| <= 2 && r[0] == Updated(Thing(e))
    ensures |r| == 2 <==> hooks && e.hasOnDestroy && OutOfBounds(e, width, height)
    ensures |r| == 2 ==> r[1] == OnDestroy(Thing(e))
  {
    [Updated(Thing(e))] +
    (if OutOfBounds(e, width, height) && hooks && e.hasOnDestroy then [OnDestroy(Thing(e))] else [])
  }

  /** The group left by the reaping loop resumed at index `i`: an entity that
      is out of bounds is removed and the index still advances, so the entity
      that moves into its slot is not visited in this pass. */
  function Survivors(s: seq<Entity>, i: nat, width: int, height: int): (r: seq<Entity>)
    ensures |r| <= |s|
    decreases |s| - i
  {
    if i >= |s| then s
    else if OutOfBounds(s[i], width, height) then Survivors(RemoveAt(s, i), i + 1, width, height)
    else Survivors(s, i + 1, width, height)
  }

  /** The entities the reaping loop resumed at index `i` reads, in order. */
  function Visited(s: seq<Entity>, i: nat, width: int, height: int): (r: seq<Entity>)
    ensures |r| <= if i <= |s| then |s| - i else 0
    decreases |s| - i
  {
    if i >= |s| then []
    else if OutOfBounds(s[i], width, height) then [s[i]] + Visited(RemoveAt(s, i), i + 1, width, height)
    else [s[i]] + Visited(s, i + 1, width, height)
  }

  /** The calls made by the reaping loop resumed at index `i`: the
      VisitEvents of each visited entity, in order. */
  function ReapEvents(s: seq<Entity>, i: nat, width: int, height: int, hooks: bool): seq<Event>
    decreases |s| - i
  {
    if i >= |s| then []
    else if OutOfBounds(s[i], width, height) then
      VisitEvents(s[i], width, height, hooks) + ReapEvents(RemoveAt(s, i), i + 1, width, height, hooks)
    else VisitEvents(s[i], width, height, hooks) + ReapEvents(s, i + 1, width, height, hooks)
  }

  /** In-bounds entities are never removed: the in-bounds members survive,
      all of them, in their order. */
  lemma {:induction false} ReapKeepsInside(s: seq<Entity>, i: nat, width: int, height: int)
    ensures Filter(Survivors(s, i, width, height), InsideOf(width, height)) == Filter(s, InsideOf(width, height))
    decreases |s| - i
  {
    if i < |s| {
      if OutOfBounds(s[i], width, height) {
        ReapKeepsInside(RemoveAt(s, i), i + 1, width, height);
        FilterRemoveAt(s, i, InsideOf(width, height));
      } else {
        ReapKeepsInside(s, i + 1, width, height);
      }
    }
  }

  /** The pass only removes: the survivors are a sub-multiset of the group, so
      (with ReapKeepsInside) everything removed was out of bounds, and no
      filtered count, such as the ChaserShip count, grows. */
  lemma {:induction false} ReapOnlyRemoves(s: seq<Entity>, i: nat, width: int, height: int, keep: Entity -> bool)
    ensures multiset(Survivors(s, i, width, height)) <= multiset(s)
    ensures |Filter(Survivors(s, i, width, height), keep)| <= |Filter(s, keep)|
    decreases |s| - i
  {
    if i < |s| {
      if OutOfBounds(s[i], width, height) {
        ReapOnlyRemoves(RemoveAt(s, i), i + 1, width, height, keep);
        RemoveAtMultiset(s, i);
        FilterRemoveAt(s, i, keep);
      } else {
        ReapOnlyRemoves(s, i + 1, width, height, keep);
      }
    }
  }

  /** The entities before the loop index are not removed: they survive
      unchanged, in their slots. */
  lemma {:induction false} ReapKeepsPrefix(s: seq<Entity>, i: nat, width: int, height: int)
    requires i <= |s|
    ensures |Survivors(s, i, width, height)| >= i
    ensures Survivors(s, i, width, height)[..i] == s[..i]
    decreases |s| - i
  {
    if i < |s| {
      if OutOfBounds(s[i], width, height) {
        var s' := RemoveAt(s, i);
        if i + 1 <= |s'| {
          ReapKeepsPrefix(s', i + 1, width, height);
          assert Survivors(s, i, width, height)[..i] == Survivors(s', i + 1, width, height)[..i + 1][..i];
        } else {
          assert Survivors(s, i, width, height) == s';
        }
        assert s'[..i] == s[..i];
      } else {
        ReapKeepsPrefix(s, i + 1, width, height);
        assert Survivors(s, i, width, height)[..i] == Survivors(s, i + 1, width, height)[..i + 1][..i];
      }
    }
  }

  /** The entities before the loop index are not visited either: every
      entity the loop reads comes from index `i` on, at most as often as it
      occurs there. */
  lemma {:induction false} ReapVisitsFromIndex(s: seq<Entity>, i: nat, width: int, height: int)
    requires i <= |s|
    ensures multiset(Visited(s, i, width, height)) <= multiset(s[i..])
    decreases |s| - i
  {
    if i < |s| {
      var x, tail := s[i], s[i + 1..];
      assert s[i..] == [x] + tail;
      if OutOfBounds(x, width, height) {
        var s' := RemoveAt(s, i);
        var rest := Visited(s', i + 1, width, height);
        assert Visited(s, i, width, height) == [x] + rest;
        if i + 1 <= |s'| {
          ReapVisitsFromIndex(s', i + 1, width, height);
          var tail' := s'[i + 1..];
          assert tail' == tail[1..];
          assert tail == [tail[0]] + tail';
          assert multiset(rest) <= multiset(tail');
          assert multiset(tail') <= multiset(tail);
        } else {
          assert rest == [];
        }
      } else {
        assert Visited(s, i, width, height) == [x] + Visited(s, i + 1, width, height);
        ReapVisitsFromIndex(s, i + 1, width, height);
      }
    }
  }

  /** `s` is made up, as a multiset, of the survivors of the pass resumed at
      `i` and of the entities that pass visits while they are out of bounds. */
  predicate SplitsInto(s: seq<Entity>, i: nat, width: int, height: int)
  {
    multiset(Survivors(s, i, width, height)) +
    multiset(Filter(Visited(s, i, width, height), OutsideOf(width, height))) == multiset(s)
  }

  /** The step of the split for a visited entity that is removed. */
  lemma SplitRemoved(s: seq<Entity>, i: nat, width: int, height: int)
    requires i < |s| && OutOfBounds(s[i], width, height)
    requires SplitsInto(RemoveAt(s, i), i + 1, width, height)
    ensures SplitsInto(s, i, width, height)
  {
    var x, s', out := s[i], RemoveAt(s, i), OutsideOf(width, height);
    var visited := Visited(s', i + 1, width, height);
    var outside := Filter(visited, out);
    assert Visited(s, i, width, height) == [x] + visited;
    assert Filter([x] + visited, out) == [x] + outside by {
      FilterAppend([x], visited, out);
      FilterSnoc([], x, out);
      assert [] + [x] == [x];
    }
    assert multiset(s') + multiset{x} == multiset(s) by {
      RemoveAtMultiset(s, i);
    }
    assert multiset([x] + outside) == multiset{x} + multiset(outside);
  }

  /** The step of the split for a visited entity that stays. */
  lemma SplitKept(s: seq<Entity>, i: nat, width: int, height: int)
    requires i < |s| && !OutOfBounds(s[i], width, height)
    requires SplitsInto(s, i + 1, width, height)
    ensures SplitsInto(s, i, width, height)
  {
    var x, out := s[i], OutsideOf(width, height);
    var visited := Visited(s, i + 1, width, height);
    FilterAppend([x], visited, out);
    FilterSnoc([], x, out);
    assert [] + [x] == [x];
  }

  /** The reaping rule both ways: the group splits exactly into the survivors
      and the visited entities that are out of bounds. With ReapKeepsInside,
      a visited entity is removed if and only if it is out of bounds. */
  lemma {:induction false} ReapRemovesExactlyVisitedOutside(s: seq<Entity>, i: nat, width: int, height: int)
    ensures SplitsInto(s, i, width, height)
    decreases |s| - i
  {
    if i < |s| {
      if OutOfBounds(s[i], width, height) {
        ReapRemovesExactlyVisitedOutside(RemoveAt(s, i), i + 1, width, height);
        SplitRemoved(s, i, width, height);
      } else {
        ReapRemovesExactlyVisitedOutside(s, i + 1, width, height);
        SplitKept(s, i, width, height);
      }
    }
  }

  /** The entities a pass records an update for, in log order. */
  function UpdatedEntities(log: seq<Event>): seq<Entity>
  {
    if log == [] then []
    else (if log[0].Updated? && log[0].who.Thing? then [log[0].who.e] else []) + UpdatedEntities(log[1..])
  }

  lemma {:induction false} UpdatedEntitiesAppend(a: seq<Event>, b: seq<Event>)
    ensures UpdatedEntities(a + b) == UpdatedEntities(a) + UpdatedEntities(b)
    decreases |a|
  {
    if a == [] {
      assert a + b == b;
    } else {
      assert (a + b)[1..] == a[1..] + b;
      UpdatedEntitiesAppend(a[1..], b);
    }
  }

  /** The log of a pass names, through its update calls, exactly the visited
      entities in the order the loop visits them. */
  lemma {:induction false} ReapLogsVisits(s: seq<Entity>, i: nat, width: int, height: int, hooks: bool)
    ensures UpdatedEntities(ReapEvents(s, i, width, height, hooks)) == Visited(s, i, width, height)
    decreases |s| - i
  {
    if i < |s| {
      var s' := if OutOfBounds(s[i], width, height) then RemoveAt(s, i) else s;
      var v := VisitEvents(s[i], width, height, hooks);
      var hook := v[1..];
      assert v == [Updated(Thing(s[i]))] + hook;
      ReapLogsVisits(s', i + 1, width, height, hooks);
      UpdatedEntitiesAppend(v, ReapEvents(s', i + 1, width, height, hooks));
      UpdatedEntitiesAppend([Updated(Thing(s[i]))], hook);
      assert UpdatedEntities([Updated(Thing(s[i]))]) == [s[i]];
      assert UpdatedEntities(hook) == [] by {
        if hook != [] {
          assert hook == [OnDestroy(Thing(s[i]))];
        }
      }
    }
  }

  /** The entities a log records an onDestroy call for, in log order. */
  function Hooked(log: seq<Event>): seq<Entity>
  {
    if log == [] then []
    else (if log[0].OnDestroy? && log[0].who.Thing? then [log[0].who.e] else []) + Hooked(log[1..])
  }

  lemma {:induction false} HookedAppend(a: seq<Event>, b: seq<Event>)
    ensures Hooked(a + b) == Hooked(a) + Hooked(b)
    decreases |a|
  {
    if a == [] {
      assert a + b == b;
    } else {
      assert (a + b)[1..] == a[1..] + b;
      HookedAppend(a[1..], b);
    }
  }

  /** The entities whose onDestroy the enemy loop calls: out of bounds and
      defining one. */
  function HookedOf(width: int, height: int): Entity -> bool
  {
    (e: Entity) => OutOfBounds(e, width, height) && e.hasOnDestroy
  }

  /** The enemy loop calls onDestroy for exactly the visited entities that are
      out of bounds and define one, in visiting order. */
  lemma {:induction false} ReapLogsHooks(s: seq<Entity>, i: nat, width: int, height: int)
    ensures Hooked(ReapEvents(s, i, width, height, true)) == Filter(Visited(s, i, width, height), HookedOf(width, height))
    decreases |s| - i
  {
    if i < |s| {
      var x, hooked := s[i], HookedOf(width, height);
      var s' := if OutOfBounds(x, width, height) then RemoveAt(s, i) else s;
      var v, visited := VisitEvents(x, width, height, true), Visited(s', i + 1, width, height);
      ReapLogsHooks(s', i + 1, width, height);
      assert Visited(s, i, width, height) == [x] + visited;
      assert Hooked(ReapEvents(s, i, width, height, true)) ==
             Hooked(v) + Hooked(ReapEvents(s', i + 1, width, height, true)) by {
        HookedAppend(v, ReapEvents(s', i + 1, width, height, true));
      }
      assert Hooked(v) == Filter([x], hooked) by {
        FilterSnoc([], x, hooked);
        assert [] + [x] == [x];
        assert Hooked(v) == Hooked([Updated(Thing(x))] + v[1..]);
        HookedAppend([Updated(Thing(x))], v[1..]);
        if |v| == 2 {
          assert v[1..] == [OnDestroy(Thing(x))];
        }
      }
      FilterAppend([x], visited, hooked);
    }
  }

  /** A pass over a group with an out-of-bounds entity at or after the loop
      index removes at least one entity: the first such entity is always
      visited. */
  lemma {:induction false} ReapMakesProgress(s: seq<Entity>, i: nat, j: nat, width: int, height: int)
    requires i <= j < |s| && OutOfBounds(s[j], width, height)
    ensures |Survivors(s, i, width, height)| < |s|
    decreases |s| - i
  {
    if OutOfBounds(s[i], width, height) {
    } else {
      ReapMakesProgress(s, i + 1, j, width, height);
    }
  }

  /** A group with nothing out of bounds from the loop index on is left as it is. */
  lemma {:induction false} ReapKeepsInBoundsGroup(s: seq<Entity>, i: nat, width: int, height: int)
    requires forall j :: i <= j < |s| ==> !OutOfBounds(s[j], width, height)
    ensures Survivors(s, i, width, height) == s
    ensures forall k :: 0 <= k < |ReapEvents(s, i, width, height, true)| ==>
      !ReapEvents(s, i, width, height, true)[k].OnDestroy?
    decreases |s| - i
  {
    if i < |s| {
      ReapKeepsInBoundsGroup(s, i + 1, width, height);
      var rest := ReapEvents(s, i + 1, width, height, true);
      assert ReapEvents(s, i, width, height, true) == [Updated(Thing(s[i]))] + rest;
    }
  }

  /** The slot skip: of two adjacent out-of-bounds entities at the loop index,
      the first is removed and the second, sliding into its slot, survives
      the pass (it is removed on a later frame). */
  lemma ReapSkipsSuccessor(s: seq<Entity>, i: nat, width: int, height: int)
    requires i + 1 < |s| && OutOfBounds(s[i], width, height) && OutOfBounds(s[i + 1], width, height)
    ensures |Survivors(s, i, width, height)| > i && Survivors(s, i, width, height)[i] == s[i + 1]
  {
    ReapKeepsPrefix(RemoveAt(s, i), i + 1, width, height);
  }

  /** A pass whose loop does not call hooks logs no onDestroy at all; one that
      does logs onDestroy only for an out-of-bounds entity that defines it. */
  lemma {:induction false} ReapHooks(s: seq<Entity>, i: nat, width: int, height: int, hooks: bool)
    ensures forall k :: 0 <= k < |ReapEvents(s, i, width, height, hooks)| &&
                        ReapEvents(s, i, width, height, hooks)[k].OnDestroy? ==>
      hooks &&
      ReapEvents(s, i, width, height, hooks)[k].who.Thing? &&
      ReapEvents(s, i, width, height, hooks)[k].who.e.hasOnDestroy &&
      OutOfBounds(ReapEvents(s, i, width, height, hooks)[k].who.e, width, height)
    decreases |s| - i
  {
    if i < |s| {
      var v := VisitEvents(s[i], width, height, hooks);
      var s' := if OutOfBounds(s[i], width, height) then RemoveAt(s, i) else s;
      ReapHooks(s', i + 1, width, height, hooks);
      var rest := ReapEvents(s', i + 1, width, height, hooks);
      var all: seq<Event> := v + rest;
      assert ReapEvents(s, i, width, height, hooks) == all;
      forall k | 0 <= k < |all| && all[k].OnDestroy?
        ensures hooks && all[k].who.Thing? && all[k].who.e.hasOnDestroy &&
                OutOfBounds(all[k].who.e, width, height)
      {
        if k >= |v| {
          assert all[k] == rest[k - |v|];
        }
      }
    }
  }

  /** The group after `frames` reaping passes in which nothing moves. */
  function ReapFrames(s: seq<Entity>, frames: nat, width: int, height: int): seq<Entity>
    decreases frames
  {
    if frames == 0 then s else ReapFrames(Survivors(s, 0, width, height), frames - 1, width, height)
  }

  /** Despite the slot skip, as many passes as the group has members leave no
      out-of-bounds entity behind. */
  lemma {:induction false} ReapFramesClears(s: seq<Entity>, frames: nat, width: int, height: int)
    requires frames >= |s|
    ensures forall e :: e in ReapFrames(s, frames, width, height) ==> !OutOfBounds(e, width, height)
    decreases frames
  {
    if exists j :: 0 <= j < |s| && OutOfBounds(s[j], width, height) {
      var j :| 0 <= j < |s| && OutOfBounds(s[j], width, height);
      ReapMakesProgress(s, 0, j, width, height);
      ReapFramesClears(Survivors(s, 0, width, height), frames - 1, width, height);
    } else {
      ReapKeepsInBoundsGroup(s, 0, width, height);
      ReapFramesStays(s, frames, width, height);
    }
  }

  lemma {:induction false} ReapFramesStays(s: seq<Entity>, frames: nat, width: int, height: int)
    requires forall j :: 0 <= j < |s| ==> !OutOfBounds(s[j], width, height)
    ensures ReapFrames(s, frames, width, height) == s
    decreases frames
  {
    if frames > 0 {
      ReapKeepsInBoundsGroup(s, 0, width, height);
      ReapFramesStays(s, frames - 1, width, height);
    }
  }
}
