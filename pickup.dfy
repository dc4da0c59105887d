/**
 Pickup collection of `src/pickup.rs`. Unless the active modifier is
 `Teleport`, `check_pickup` compares every player with every pickup; each
 pickup within its radius of a player is despawned and announced with a
 `PickupCollected` event, and either records the current goal as completed
 (a `Goal` pickup) or becomes the active modifier (any other kind).
 */
module Pickups {
  import opened Common

  datatype PickupType = Goal | PlanetKiller | Teleport

  /** `Pickup(radius, kind)`. */
  datatype Pickup = Pickup(radius: real, kind: PickupType)

  /** One row of the query `(Entity, &Transform, &Pickup)`. */
  datatype PickupEntity = PickupEntity(entity: Entity, translation: Vec3, pickup: Pickup)

  /** The one level event this system sends. */
  datatype LevelEvent = PickupCollected(kind: PickupType)

  predicate InReach(dist: (Vec3, Vec3) -> real, player: Vec3, p: PickupEntity) {
    Within(dist, player, p.translation, p.pickup.radius)
  }

  /** The pickups the inner loop collects for one player, in query order. */
  function CollectedBy(dist: (Vec3, Vec3) -> real, player: Vec3, pickups: seq<PickupEntity>): seq<PickupEntity>
    decreases |pickups|
  {
    if pickups == [] then []
    else
      var p := pickups[|pickups| - 1];
      CollectedBy(dist, player, pickups[..|pickups| - 1]) + if InReach(dist, player, p) then [p] else []
  }

  /** Every (player, pickup) hit of the two loops, in the order they happen. */
  function Collected(dist: (Vec3, Vec3) -> real, players: seq<Vec3>, pickups: seq<PickupEntity>): seq<PickupEntity>
    decreases |players|
  {
    if players == [] then []
    else Collected(dist, players[..|players| - 1], pickups) + CollectedBy(dist, players[|players| - 1], pickups)
  }

  /**
   What the pass touches: `goal_status.completed`, `active_pickup.0`, the
   queued despawns and the sent events.
   */
  datatype PickupState<G> = PickupState(completed: seq<G>, active: Option<PickupType>,
                                        despawns: seq<Entity>, events: seq<LevelEvent>)

  /** The body of the `if` for one collected pickup. */
  function Record<G>(current: G, s: PickupState<G>, p: PickupEntity): PickupState<G> {
    var kind := p.pickup.kind;
    PickupState(if kind == Goal then s.completed + [current] else s.completed,
                if kind == Goal then s.active else Some(kind),
                s.despawns + [p.entity],
                s.events + [PickupCollected(kind)])
  }

  function RecordAll<G>(current: G, s: PickupState<G>, hits: seq<PickupEntity>): PickupState<G>
    decreases |hits|
  {
    if hits == [] then s
    else Record(current, RecordAll(current, s, hits[..|hits| - 1]), hits[|hits| - 1])
  }

  /** `check_pickup` as a whole: the Teleport gate, then every hit in order. */
  function CheckPickupEffect<G>(dist: (Vec3, Vec3) -> real, current: G, s: PickupState<G>,
                                players: seq<Vec3>, pickups: seq<PickupEntity>): (r: PickupState<G>)
    ensures s.active == Some(Teleport) ==> r == s
  {
    if s.active == Some(Teleport) then s
    else RecordAll(current, s, Collected(dist, players, pickups))
  }

  lemma {:induction false} CollectedByIff(dist: (Vec3, Vec3) -> real, player: Vec3, pickups: seq<PickupEntity>, p: PickupEntity)
    ensures p in CollectedBy(dist, player, pickups) <==> p in pickups && InReach(dist, player, p)
    decreases |pickups|
  {
    if pickups != [] {
      var n := |pickups|;
      CollectedByIff(dist, player, pickups[..n - 1], p);
      assert pickups == pickups[..n - 1] + [pickups[n - 1]];
    }
  }

  /** A pickup is collected iff some player is within its radius (inclusive). */
  lemma {:induction false} CollectedIff(dist: (Vec3, Vec3) -> real, players: seq<Vec3>, pickups: seq<PickupEntity>, p: PickupEntity)
    ensures p in Collected(dist, players, pickups) <==>
            p in pickups && exists i :: 0 <= i < |players| && InReach(dist, players[i], p)
    decreases |players|
  {
    if players != [] {
      var n := |players|;
      var init := players[..n - 1];
      CollectedIff(dist, init, pickups, p);
      CollectedByIff(dist, players[n - 1], pickups, p);
      if exists i :: 0 <= i < |init| && InReach(dist, init[i], p) {
        var i :| 0 <= i < |init| && InReach(dist, init[i], p);
        assert players[i] == init[i];
      }
      if exists i :: 0 <= i < n && InReach(dist, players[i], p) {
        var i :| 0 <= i < n && InReach(dist, players[i], p);
        if i < n - 1 {
          assert init[i] == players[i];
        }
      }
    }
  }

  /**
   Every hit is despawned and announced once, in order: the despawns and
   events grow by exactly one entry per hit, carrying its entity and its type.
   */
  lemma {:induction false} RecordAllOutputs<G>(current: G, s: PickupState<G>, hits: seq<PickupEntity>)
    ensures var r := RecordAll(current, s, hits);
      |r.despawns| == |s.despawns| + |hits| && |r.events| == |s.events| + |hits| &&
      r.despawns[..|s.despawns|] == s.despawns && r.events[..|s.events|] == s.events &&
      (forall k :: 0 <= k < |hits| ==>
         r.despawns[|s.despawns| + k] == hits[k].entity &&
         r.events[|s.events| + k] == PickupCollected(hits[k].pickup.kind))
    decreases |hits|
  {
    if hits != [] {
      var n := |hits|;
      RecordAllOutputs(current, s, hits[..n - 1]);
    }
  }

  function CountGoals(hits: seq<PickupEntity>): nat
    decreases |hits|
  {
    if hits == [] then 0
    else CountGoals(hits[..|hits| - 1]) + if hits[|hits| - 1].pickup.kind == Goal then 1 else 0
  }

  /**
   `completed` only grows: the old list is a prefix, and one copy of the
   current goal is appended per collected `Goal` pickup.
   */
  lemma {:induction false} RecordAllCompleted<G>(current: G, s: PickupState<G>, hits: seq<PickupEntity>)
    ensures var r := RecordAll(current, s, hits);
      |r.completed| == |s.completed| + CountGoals(hits) &&
      r.completed[..|s.completed|] == s.completed &&
      (forall k :: |s.completed| <= k < |r.completed| ==> r.completed[k] == current)
    decreases |hits|
  {
    if hits != [] {
      RecordAllCompleted(current, s, hits[..|hits| - 1]);
    }
  }

  /**
   The active modifier ends as the type of the last collected non-goal
   pickup; when only goals are collected it is left as it was.
   */
  lemma {:induction false} RecordAllActive<G>(current: G, s: PickupState<G>, hits: seq<PickupEntity>)
    ensures (forall k :: 0 <= k < |hits| ==> hits[k].pickup.kind == Goal) ==>
              RecordAll(current, s, hits).active == s.active
    ensures forall k :: 0 <= k < |hits| && hits[k].pickup.kind != Goal &&
                        (forall m :: k < m < |hits| ==> hits[m].pickup.kind == Goal) ==>
              RecordAll(current, s, hits).active == Some(hits[k].pickup.kind)
    decreases |hits|
  {
    if hits != [] {
      var n := |hits|;
      var init := hits[..n - 1];
      var last := hits[n - 1];
      RecordAllActive(current, s, init);
      var prev := RecordAll(current, s, init).active;
      var active := RecordAll(current, s, hits).active;
      assert active == if last.pickup.kind == Goal then prev else Some(last.pickup.kind);
      assert forall k :: 0 <= k < n - 1 ==> init[k] == hits[k];
      forall k | 0 <= k < n && hits[k].pickup.kind != Goal &&
                 (forall m :: k < m < n ==> hits[m].pickup.kind == Goal)
        ensures active == Some(hits[k].pickup.kind)
      {
        if k < n - 1 {
          assert last.pickup.kind == Goal;
          assert init[k].pickup.kind != Goal && forall m :: k < m < n - 1 ==> init[m].pickup.kind == Goal;
        }
      }
    }
  }

  /** A `Goal` pickup records the current goal and leaves the active modifier alone. */
  lemma CollectingGoal<G>(current: G, s: PickupState<G>, p: PickupEntity)
    requires p.pickup.kind == Goal
    ensures RecordAll(current, s, [p]).completed == s.completed + [current]
    ensures RecordAll(current, s, [p]).active == s.active
  {
    assert [p][..0] == [];
  }

  /** Any other pickup becomes the active modifier and leaves `completed` alone. */
  lemma CollectingModifier<G>(current: G, s: PickupState<G>, p: PickupEntity)
    requires p.pickup.kind != Goal
    ensures RecordAll(current, s, [p]).completed == s.completed
    ensures RecordAll(current, s, [p]).active == Some(p.pickup.kind)
  {
    assert [p][..0] == [];
  }

  /**
   The whole system from a frame with no queued commands or events: with
   `Teleport` active nothing happens; otherwise an entity is despawned iff
   it is a pickup some player reaches, one event is sent per despawn, and
   the old `completed` list is a prefix of the new one.
   */
  lemma CheckPickupOutcome<G>(dist: (Vec3, Vec3) -> real, current: G, completed: seq<G>, active: Option<PickupType>,
                              players: seq<Vec3>, pickups: seq<PickupEntity>)
    ensures var r := CheckPickupEffect(dist, current, PickupState(completed, active, [], []), players, pickups);
      (active == Some(Teleport) ==> r == PickupState(completed, active, [], [])) &&
      (active != Some(Teleport) ==>
         |r.events| == |r.despawns| &&
         (forall e :: e in r.despawns <==>
            exists k, i :: 0 <= k < |pickups| && 0 <= i < |players| &&
                           pickups[k].entity == e && InReach(dist, players[i], pickups[k]))) &&
      |completed| <= |r.completed| && r.completed[..|completed|] == completed
  {
    var s := PickupState(completed, active, [], []);
    if active != Some(Teleport) {
      var hits := Collected(dist, players, pickups);
      RecordAllOutputs(current, s, hits);
      RecordAllCompleted(current, s, hits);
      forall e
        ensures e in RecordAll(current, s, hits).despawns <==>
          exists k, i :: 0 <= k < |pickups| && 0 <= i < |players| &&
                         pickups[k].entity == e && InReach(dist, players[i], pickups[k])
      {
        DespawnedIff(dist, current, s, players, pickups, e);
      }
    }
  }

  /** Starting from no queued despawns, the despawned entities are exactly those of the hits. */
  lemma {:induction false} DespawnsAreHits<G>(current: G, s: PickupState<G>, hits: seq<PickupEntity>, e: Entity)
    requires s.despawns == []
    ensures e in RecordAll(current, s, hits).despawns <==> exists p :: p in hits && p.entity == e
    decreases |hits|
  {
    if hits != [] {
      var init := hits[..|hits| - 1];
      var last := hits[|hits| - 1];
      DespawnsAreHits(current, s, init, e);
      assert RecordAll(current, s, hits).despawns == RecordAll(current, s, init).despawns + [last.entity];
      assert hits == init + [last];
      if exists p :: p in hits && p.entity == e {
        var p :| p in hits && p.entity == e;
        assert p in init || p == last;
      }
    }
  }

  /** Starting from no queued despawns, an entity is despawned iff it is a pickup some player reaches. */
  lemma DespawnedIff<G>(dist: (Vec3, Vec3) -> real, current: G, s: PickupState<G>,
                        players: seq<Vec3>, pickups: seq<PickupEntity>, e: Entity)
    requires s.despawns == []
    ensures e in RecordAll(current, s, Collected(dist, players, pickups)).despawns <==>
            exists k, i :: 0 <= k < |pickups| && 0 <= i < |players| &&
                           pickups[k].entity == e && InReach(dist, players[i], pickups[k])
  {
    var hits := Collected(dist, players, pickups);
    DespawnsAreHits(current, s, hits, e);
    if exists p :: p in hits && p.entity == e {
      var p :| p in hits && p.entity == e;
      CollectedIff(dist, players, pickups, p);
      var k :| 0 <= k < |pickups| && pickups[k] == p;
      var i :| 0 <= i < |players| && InReach(dist, players[i], p);
      assert pickups[k].entity == e && InReach(dist, players[i], pickups[k]);
    }
    if exists k, i :: 0 <= k < |pickups| && 0 <= i < |players| &&
                      pickups[k].entity == e && InReach(dist, players[i], pickups[k]) {
      var k, i :| 0 <= k < |pickups| && 0 <= i < |players| &&
                  pickups[k].entity == e && InReach(dist, players[i], pickups[k]);
      CollectedIff(dist, players, pickups, pickups[k]);
      assert pickups[k] in hits;
    }
  }

  /** The `GoalStatus` resource of the level: the goal being worked on and the goals done. */
  class GoalStatus<G> {
    var current: G
    var completed: seq<G>

    constructor (current: G, completed: seq<G>)
      ensures this.current == current && this.completed == completed
    {
      this.current := current;
      this.completed := completed;
    }
  }

  /** The `ActivePickup` resource: the modifier the player holds, if any. */
  class ActivePickup {
    var value: Option<PickupType>

    constructor (value: Option<PickupType>)
      ensures this.value == value
    {
      this.value := value;
    }
  }

  /**
   `check_pickup`: the two resources are updated in place; the queued
   despawns and the sent events are returned in order.
   */
  method CheckPickup<G>(dist: (Vec3, Vec3) -> real, players: seq<Vec3>, pickups: seq<PickupEntity>,
                        goalStatus: GoalStatus<G>, activePickup: ActivePickup)
    returns (despawns: seq<Entity>, events: seq<LevelEvent>)
    modifies goalStatus, activePickup
    ensures goalStatus.current == old(goalStatus.current)
    ensures PickupState(goalStatus.completed, activePickup.value, despawns, events) ==
            CheckPickupEffect(dist, old(goalStatus.current),
                              PickupState(old(goalStatus.completed), old(activePickup.value), [], []),
                              players, pickups)
  {
    despawns, events := [], [];
    if activePickup.value == Some(Teleport) {
      return;
    }
    ghost var start := PickupState(goalStatus.completed, activePickup.value, [], []);
    ghost var hits: seq<PickupEntity> := [];
    var i := 0;
    while i < |players|
      invariant 0 <= i <= |players|
      invariant goalStatus.current == old(goalStatus.current)
      invariant hits == Collected(dist, players[..i], pickups)
      invariant PickupState(goalStatus.completed, activePickup.value, despawns, events) ==
                RecordAll(goalStatus.current, start, hits)
    {
      var player := players[i];
      var j := 0;
      while j < |pickups|
        invariant 0 <= j <= |pickups|
        invariant goalStatus.current == old(goalStatus.current)
        invariant hits == Collected(dist, players[..i], pickups) + CollectedBy(dist, player, pickups[..j])
        invariant PickupState(goalStatus.completed, activePickup.value, despawns, events) ==
                  RecordAll(goalStatus.current, start, hits)
      {
        var p := pickups[j];
        if dist(player, p.translation) <= p.pickup.radius {
          despawns := despawns + [p.entity];
          if p.pickup.kind == Goal {
            var goalType := goalStatus.current;
            goalStatus.completed := goalStatus.completed + [goalType];
          } else {
            activePickup.value := Some(p.pickup.kind);
          }
          events := events + [PickupCollected(p.pickup.kind)];
          assert (hits + [p])[..|hits|] == hits;
          hits := hits + [p];
        }
        assert pickups[..j + 1][..j] == pickups[..j];
        j := j + 1;
      }
      assert pickups[..j] == pickups;
      assert players[..i + 1][..i] == players[..i];
      i := i + 1;
    }
    assert players[..i] == players;
  }
}
