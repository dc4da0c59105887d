/**
 Goal consumption of `src/goal.rs`: `check_goal` compares every player with
 every goal and queues a despawn for each goal whose centre is within its
 radius of that player (the boundary counts as reached).
 */
module Goals {
  import opened Common

  /** `Goal(radius)`. */
  datatype Goal = Goal(radius: real)

  /** One row of the query `(Entity, &Transform, &Goal)`. */
  datatype GoalEntity = GoalEntity(entity: Entity, translation: Vec3, goal: Goal)

  predicate Reaches(dist: (Vec3, Vec3) -> real, player: Vec3, g: GoalEntity) {
    Within(dist, player, g.translation, g.goal.radius)
  }

  /** The despawns the inner loop queues for one player, in query order. */
  function ReachedBy(dist: (Vec3, Vec3) -> real, player: Vec3, goals: seq<GoalEntity>): seq<Entity>
    decreases |goals|
  {
    if goals == [] then []
    else
      var g := goals[|goals| - 1];
      ReachedBy(dist, player, goals[..|goals| - 1]) + if Reaches(dist, player, g) then [g.entity] else []
  }

  /** The despawns the two loops queue, player by player. */
  function GoalDespawns(dist: (Vec3, Vec3) -> real, players: seq<Vec3>, goals: seq<GoalEntity>): seq<Entity>
    decreases |players|
  {
    if players == [] then []
    else GoalDespawns(dist, players[..|players| - 1], goals) + ReachedBy(dist, players[|players| - 1], goals)
  }

  lemma {:induction false} ReachedByIff(dist: (Vec3, Vec3) -> real, player: Vec3, goals: seq<GoalEntity>, e: Entity)
    ensures e in ReachedBy(dist, player, goals) <==>
            exists k :: 0 <= k < |goals| && goals[k].entity == e && Reaches(dist, player, goals[k])
    decreases |goals|
  {
    if goals != [] {
      var n := |goals|;
      var init := goals[..n - 1];
      ReachedByIff(dist, player, init, e);
      if e in ReachedBy(dist, player, init) {
        var k :| 0 <= k < |init| && init[k].entity == e && Reaches(dist, player, init[k]);
        assert goals[k] == init[k];
      }
      if exists k :: 0 <= k < n && goals[k].entity == e && Reaches(dist, player, goals[k]) {
        var k :| 0 <= k < n && goals[k].entity == e && Reaches(dist, player, goals[k]);
        if k < n - 1 {
          assert init[k] == goals[k];
        }
      }
    }
  }

  /** Exactly the goals that some player reaches are despawned. */
  lemma {:induction false} GoalDespawnsIff(dist: (Vec3, Vec3) -> real, players: seq<Vec3>, goals: seq<GoalEntity>, e: Entity)
    ensures e in GoalDespawns(dist, players, goals) <==>
            exists i, k :: 0 <= i < |players| && 0 <= k < |goals| && goals[k].entity == e && Reaches(dist, players[i], goals[k])
    decreases |players|
  {
    if players != [] {
      var n := |players|;
      var init := players[..n - 1];
      GoalDespawnsIff(dist, init, goals, e);
      ReachedByIff(dist, players[n - 1], goals, e);
      if e in GoalDespawns(dist, init, goals) {
        var i, k :| 0 <= i < |init| && 0 <= k < |goals| && goals[k].entity == e && Reaches(dist, init[i], goals[k]);
        assert players[i] == init[i];
      }
      if exists i, k :: 0 <= i < n && 0 <= k < |goals| && goals[k].entity == e && Reaches(dist, players[i], goals[k]) {
        var i, k :| 0 <= i < n && 0 <= k < |goals| && goals[k].entity == e && Reaches(dist, players[i], goals[k]);
        if i < n - 1 {
          assert init[i] == players[i];
        }
      }
    }
  }

  /**
   `check_goal`: the two nested loops. Every player is checked against every
   goal; nothing is written except the queued despawns.
   */
  method CheckGoal(dist: (Vec3, Vec3) -> real, players: seq<Vec3>, goals: seq<GoalEntity>) returns (despawns: seq<Entity>)
    ensures despawns == GoalDespawns(dist, players, goals)
    ensures forall e :: e in despawns <==>
              exists i, k :: 0 <= i < |players| && 0 <= k < |goals| && goals[k].entity == e && Reaches(dist, players[i], goals[k])
  {
    despawns := [];
    var i := 0;
    while i < |players|
      invariant 0 <= i <= |players|
      invariant despawns == GoalDespawns(dist, players[..i], goals)
    {
      var player := players[i];
      var j := 0;
      while j < |goals|
        invariant 0 <= j <= |goals|
        invariant despawns == GoalDespawns(dist, players[..i], goals) + ReachedBy(dist, player, goals[..j])
      {
        var g := goals[j];
        if dist(player, g.translation) <= g.goal.radius {
          despawns := despawns + [g.entity];
        }
        assert goals[..j + 1][..j] == goals[..j];
        j := j + 1;
      }
      assert goals[..j] == goals;
      assert players[..i + 1][..i] == players[..i];
      i := i + 1;
    }
    assert players[..i] == players;
    forall e
      ensures e in despawns <==>
              exists i, k :: 0 <= i < |players| && 0 <= k < |goals| && goals[k].entity == e && Reaches(dist, players[i], goals[k])
    {
      GoalDespawnsIff(dist, players, goals, e);
    }
  }

  ghost predicate UniqueEntities(goals: seq<GoalEntity>) {
    forall k, m :: 0 <= k < m < |goals| ==> goals[k].entity != goals[m].entity
  }

  /** The entities left after the queued despawns are applied. */
  function Despawn(world: set<Entity>, despawns: seq<Entity>): set<Entity> {
    world - set e | e in despawns
  }

  /**
   After the commands are applied: a goal is gone iff some player reaches it
   (inclusive boundary), every other goal remains, and no entity that is
   not a goal is touched.
   */
  lemma CheckGoalOutcome(dist: (Vec3, Vec3) -> real, world: set<Entity>, players: seq<Vec3>, goals: seq<GoalEntity>)
    requires UniqueEntities(goals)
    ensures var after := Despawn(world, GoalDespawns(dist, players, goals));
      after <= world &&
      (forall k :: 0 <= k < |goals| && goals[k].entity in world ==>
         (goals[k].entity !in after <==> exists i :: 0 <= i < |players| && Reaches(dist, players[i], goals[k]))) &&
      (forall e :: e in world && (forall k :: 0 <= k < |goals| ==> goals[k].entity != e) ==> e in after)
  {
    var despawns := GoalDespawns(dist, players, goals);
    forall e {
      GoalDespawnsIff(dist, players, goals, e);
    }
  }
}
