/**
 The gravity tick of `src/gravity.rs`: `calculate_gravity` sums the pairwise
 attraction of every other body into each moving body's velocity, reading an
 unmodified snapshot of the query and queueing the new velocities as
 insert commands; `move_velocity` then advances each moving body's
 translation by `v * dt`.

 `normalize` is a square root away from exact arithmetic, so it is a
 parameter `norm`; the one fact about it that the model uses is that it is
 odd, `norm(-r) == -norm(r)` (predicate OddNormalize).
 */
module Gravity {
  import opened Common

  /** `GravitationalBody(mass, radius)`. */
  datatype GravitationalBody = GravitationalBody(mass: real, radius: real)

  datatype Velocity = Static | Value(v: Vec2)

  /** One row of the query `(Entity, &Transform, &Velocity, &GravitationalBody)`. */
  datatype Body = Body(entity: Entity, translation: Vec3, velocity: Velocity, gravity: GravitationalBody)

  /** The queued command `commands.entity(entity).insert(velocity)`. */
  datatype VelocityInsert = VelocityInsert(entity: Entity, velocity: Velocity)

  /** The gravitational constant `G`. */
  const G: real := 30.0

  /** Pairs whose squared separation is at most this contribute nothing. */
  const MinDistanceSquared: real := 30.0

  ghost predicate OddNormalize(norm: Vec2 -> Vec2) {
    forall r :: norm(Neg(r)) == Neg(norm(r))
  }

  /** `r`: the vector in the plane from `me` toward `other`. */
  function Separation(me: Body, other: Body): Vec2 {
    XY(Sub3(other.translation, me.translation))
  }

  /**
   What one iteration of the inner loop adds to the velocity of `me`:
   nothing for `me` itself or for a pair that is too close, otherwise
   `G * dt * m_me * m_other * normalize(r) / |r|^2`.
   */
  function Contribution(norm: Vec2 -> Vec2, dt: real, me: Body, other: Body): Vec2 {
    if other.entity == me.entity then Zero2
    else if LengthSquared(Separation(me, other)) > MinDistanceSquared then Attraction(norm, dt, me, other)
    else Zero2
  }

  /** The added term `G * dt * m_me * m_other * normalize(r) / d_sq`, for a pair beyond the threshold. */
  function Attraction(norm: Vec2 -> Vec2, dt: real, me: Body, other: Body): Vec2
    requires LengthSquared(Separation(me, other)) > MinDistanceSquared
  {
    var r := Separation(me, other);
    Div(Scale(G * dt * me.gravity.mass * other.gravity.mass, norm(r)), LengthSquared(r))
  }

  /**
   A body never pulls on itself, and a pair at most the threshold apart
   contributes nothing: the division is only reached with `d_sq > 30 > 0`.
   */
  lemma ContributionVanishes(norm: Vec2 -> Vec2, dt: real, me: Body, other: Body)
    requires other.entity == me.entity || LengthSquared(Separation(me, other)) <= MinDistanceSquared
    ensures Contribution(norm, dt, me, other) == Zero2
  {
  }

  /**
   Beyond the threshold, the contribution is Newton's law for the pair:
   `G * dt * m_me * m_other / |r|^2` along `normalize(r)`, `r` pointing from
   `me` toward `other`.
   */
  lemma ContributionFormula(norm: Vec2 -> Vec2, dt: real, me: Body, other: Body)
    requires other.entity != me.entity && LengthSquared(Separation(me, other)) > MinDistanceSquared
    ensures Contribution(norm, dt, me, other) ==
            Scale(G * dt * me.gravity.mass * other.gravity.mass / LengthSquared(Separation(me, other)),
                  norm(Separation(me, other)))
  {
  }

  /** The sum of the contributions of `others` to `me`, in query order. */
  function Pull(norm: Vec2 -> Vec2, dt: real, me: Body, others: seq<Body>): Vec2
    decreases |others|
  {
    if others == [] then Zero2
    else Add(Pull(norm, dt, me, others[..|others| - 1]), Contribution(norm, dt, me, others[|others| - 1]))
  }

  /** The velocity that the tick computes for the moving body `me` from the snapshot `query`. */
  function NewVelocity(norm: Vec2 -> Vec2, dt: real, query: seq<Body>, me: Body): Vec2
    requires me.velocity.Value?
  {
    Add(me.velocity.v, Pull(norm, dt, me, query))
  }

  /** The command queued for `me`: one insert if it moves, none if it is static. */
  function CommandFor(norm: Vec2 -> Vec2, dt: real, query: seq<Body>, me: Body): seq<VelocityInsert> {
    if me.velocity.Value? then [VelocityInsert(me.entity, Value(NewVelocity(norm, dt, query, me)))] else []
  }

  /** The commands queued by the outer loop after its first `n` iterations. */
  function GravityCommands(norm: Vec2 -> Vec2, dt: real, query: seq<Body>, n: nat): seq<VelocityInsert>
    requires n <= |query|
  {
    if n == 0 then []
    else GravityCommands(norm, dt, query, n - 1) + CommandFor(norm, dt, query, query[n - 1])
  }

  /**
   `calculate_gravity`: for each moving body, start from its velocity and add
   the contribution of every other row of the same, unmodified query; queue
   the result. Nothing is written to the query itself.
   */
  method CalculateGravity(norm: Vec2 -> Vec2, dt: real, query: seq<Body>) returns (commands: seq<VelocityInsert>)
    ensures commands == GravityCommands(norm, dt, query, |query|)
  {
    commands := [];
    var i := 0;
    while i < |query|
      invariant 0 <= i <= |query|
      invariant commands == GravityCommands(norm, dt, query, i)
    {
      var body := query[i];
      if body.velocity.Value? {
        var newV := AccumulateVelocity(norm, dt, query, body);
        assert CommandFor(norm, dt, query, body) == [VelocityInsert(body.entity, Value(newV))];
        commands := commands + [VelocityInsert(body.entity, Value(newV))];
      } else {
        assert CommandFor(norm, dt, query, body) == [];
      }
      i := i + 1;
    }
  }

  /**
   The inner loop of `calculate_gravity` for one moving body: the
   accumulator `new_v` starts at the body's velocity and gains the pull of
   each row of the query in turn.
   */
  method AccumulateVelocity(norm: Vec2 -> Vec2, dt: real, query: seq<Body>, body: Body) returns (newV: Vec2)
    requires body.velocity.Value?
    ensures newV == NewVelocity(norm, dt, query, body)
  {
    newV := body.velocity.v;
    var j := 0;
    while j < |query|
      invariant 0 <= j <= |query|
      invariant newV == Add(body.velocity.v, Pull(norm, dt, body, query[..j]))
    {
      var other := query[j];
      if other.entity != body.entity {
        var r := XY(Sub3(other.translation, body.translation));
        var dSq := LengthSquared(r);
        if dSq > MinDistanceSquared {
          newV := Add(newV, Attraction(norm, dt, body, other));
        }
      }
      PullStep(norm, dt, body, query, j);
      j := j + 1;
    }
    assert query[..j] == query;
  }

  lemma PullStep(norm: Vec2 -> Vec2, dt: real, me: Body, query: seq<Body>, j: nat)
    requires j < |query|
    ensures Pull(norm, dt, me, query[..j + 1]) == Add(Pull(norm, dt, me, query[..j]), Contribution(norm, dt, me, query[j]))
  {
    assert query[..j + 1][..j] == query[..j];
  }

  /** Applying one queued insert: every row of that entity gets the new velocity. */
  function InsertVelocity(world: seq<Body>, c: VelocityInsert): seq<Body> {
    seq(|world|, i requires 0 <= i < |world| =>
      if world[i].entity == c.entity then world[i].(velocity := c.velocity) else world[i])
  }

  /** Applying the command queue, in order, after the system has run. */
  function ApplyInserts(world: seq<Body>, commands: seq<VelocityInsert>): seq<Body>
    decreases |commands|
  {
    if commands == [] then world
    else InsertVelocity(ApplyInserts(world, commands[..|commands| - 1]), commands[|commands| - 1])
  }

  /** ECS entities are distinct, so no two rows of a query share one. */
  ghost predicate UniqueEntities(query: seq<Body>) {
    forall i, j :: 0 <= i < j < |query| ==> query[i].entity != query[j].entity
  }

  /** Row `i` of the world once the commands of the first `n` iterations are applied. */
  function Committed(norm: Vec2 -> Vec2, dt: real, query: seq<Body>, n: nat, i: nat): (b: Body)
    requires i < |query|
    ensures b.entity == query[i].entity
  {
    if i < n && query[i].velocity.Value?
    then query[i].(velocity := Value(NewVelocity(norm, dt, query, query[i])))
    else query[i]
  }

  /** Applying one more queued insert after the others. */
  lemma ApplyInsertsSnoc(world: seq<Body>, commands: seq<VelocityInsert>, c: VelocityInsert)
    ensures ApplyInserts(world, commands + [c]) == InsertVelocity(ApplyInserts(world, commands), c)
  {
    assert (commands + [c])[..|commands|] == commands;
  }

  /** Iteration `n - 1` commits row `n - 1` if it moves, and no other row. */
  lemma CommittedStep(norm: Vec2 -> Vec2, dt: real, query: seq<Body>, n: nat, i: nat)
    requires 0 < n <= |query| && i < |query|
    ensures i != n - 1 ==> Committed(norm, dt, query, n, i) == Committed(norm, dt, query, n - 1, i)
    ensures i == n - 1 && query[i].velocity.Static? ==> Committed(norm, dt, query, n, i) == query[i]
    ensures i == n - 1 && query[i].velocity.Value? ==>
              Committed(norm, dt, query, n, i) == query[i].(velocity := Value(NewVelocity(norm, dt, query, query[i])))
    ensures Committed(norm, dt, query, n - 1, n - 1) == query[n - 1]
  {
  }

  /**
   Committing the commands of the first `n` iterations: each of those rows
   that moves has exactly the velocity computed from the unmodified
   snapshot; static rows, later rows, positions and masses are untouched.
   */
  lemma {:induction false} GravityTickCommits(norm: Vec2 -> Vec2, dt: real, query: seq<Body>, n: nat)
    requires UniqueEntities(query) && n <= |query|
    ensures |ApplyInserts(query, GravityCommands(norm, dt, query, n))| == |query|
    ensures forall i :: 0 <= i < |query| ==>
              ApplyInserts(query, GravityCommands(norm, dt, query, n))[i] == Committed(norm, dt, query, n, i)
  {
    if n > 0 {
      GravityTickCommits(norm, dt, query, n - 1);
      var before := GravityCommands(norm, dt, query, n - 1);
      var w := ApplyInserts(query, before);
      var me := query[n - 1];
      var cs := CommandFor(norm, dt, query, me);
      assert GravityCommands(norm, dt, query, n) == before + cs;
      if me.velocity.Value? {
        var c := VelocityInsert(me.entity, Value(NewVelocity(norm, dt, query, me)));
        assert cs == [c];
        ApplyInsertsSnoc(query, before, c);
        CommitMoving(norm, dt, query, n, w, c);
      } else {
        assert before + cs == before;
        CommitStatic(norm, dt, query, n, w);
      }
    }
  }

  /** The step of GravityTickCommits for a static row `n - 1`: nothing is queued. */
  lemma CommitStatic(norm: Vec2 -> Vec2, dt: real, query: seq<Body>, n: nat, w: seq<Body>)
    requires 0 < n <= |query| && query[n - 1].velocity.Static?
    requires |w| == |query| && forall i :: 0 <= i < |query| ==> w[i] == Committed(norm, dt, query, n - 1, i)
    ensures forall i :: 0 <= i < |query| ==> w[i] == Committed(norm, dt, query, n, i)
  {
    forall i | 0 <= i < |query|
      ensures w[i] == Committed(norm, dt, query, n, i)
    {
      CommittedStep(norm, dt, query, n, i);
    }
  }

  /** The step of GravityTickCommits for a moving row `n - 1`. */
  lemma CommitMoving(norm: Vec2 -> Vec2, dt: real, query: seq<Body>, n: nat, w: seq<Body>, c: VelocityInsert)
    requires UniqueEntities(query) && 0 < n <= |query| && query[n - 1].velocity.Value?
    requires c == VelocityInsert(query[n - 1].entity, Value(NewVelocity(norm, dt, query, query[n - 1])))
    requires |w| == |query| && forall i :: 0 <= i < |query| ==> w[i] == Committed(norm, dt, query, n - 1, i)
    ensures |InsertVelocity(w, c)| == |query|
    ensures forall i :: 0 <= i < |query| ==> InsertVelocity(w, c)[i] == Committed(norm, dt, query, n, i)
  {
    forall i | 0 <= i < |w|
      ensures w[i].entity == query[i].entity
    {
      assert w[i] == Committed(norm, dt, query, n - 1, i);
    }
    InsertVelocityAt(query, w, c, n - 1);
    var after := InsertVelocity(w, c);
    forall i | 0 <= i < |query|
      ensures after[i] == Committed(norm, dt, query, n, i)
    {
      CommittedStep(norm, dt, query, n, i);
    }
  }

  /** One insert changes exactly the row of its entity, when entities are distinct. */
  lemma InsertVelocityAt(query: seq<Body>, world: seq<Body>, c: VelocityInsert, n: nat)
    requires UniqueEntities(query) && |world| == |query| && n < |query| && query[n].entity == c.entity
    requires forall i :: 0 <= i < |world| ==> world[i].entity == query[i].entity
    ensures |InsertVelocity(world, c)| == |world|
    ensures InsertVelocity(world, c)[n] == world[n].(velocity := c.velocity)
    ensures forall i :: 0 <= i < |world| && i != n ==> InsertVelocity(world, c)[i] == world[i]
  {
  }

  /** The whole tick: moving bodies get their new velocity, static bodies stay as they are. */
  lemma GravityTickEffect(norm: Vec2 -> Vec2, dt: real, query: seq<Body>)
    requires UniqueEntities(query)
    ensures var world := ApplyInserts(query, GravityCommands(norm, dt, query, |query|));
      |world| == |query| &&
      (forall i :: 0 <= i < |query| && query[i].velocity.Static? ==> world[i] == query[i]) &&
      (forall i :: 0 <= i < |query| && query[i].velocity.Value? ==>
         world[i] == query[i].(velocity := Value(NewVelocity(norm, dt, query, query[i]))))
  {
    GravityTickCommits(norm, dt, query, |query|);
  }

  /** A moving body with no other body beyond the threshold keeps its velocity exactly. */
  lemma {:induction false} IsolatedPullIsZero(norm: Vec2 -> Vec2, dt: real, me: Body, others: seq<Body>)
    requires forall k :: 0 <= k < |others| && others[k].entity != me.entity ==>
               LengthSquared(Separation(me, others[k])) <= MinDistanceSquared
    ensures Pull(norm, dt, me, others) == Zero2
  {
    if others != [] {
      IsolatedPullIsZero(norm, dt, me, others[..|others| - 1]);
      ContributionVanishes(norm, dt, me, others[|others| - 1]);
    }
  }

  lemma IsolatedBodyKeepsVelocity(norm: Vec2 -> Vec2, dt: real, query: seq<Body>, me: Body)
    requires me.velocity.Value?
    requires forall k :: 0 <= k < |query| && query[k].entity != me.entity ==>
               LengthSquared(Separation(me, query[k])) <= MinDistanceSquared
    ensures NewVelocity(norm, dt, query, me) == me.velocity.v
  {
    IsolatedPullIsZero(norm, dt, me, query);
  }

  /** Between two bodies, the pull on one is the negation of the pull on the other. */
  lemma ContributionAntisymmetric(norm: Vec2 -> Vec2, dt: real, a: Body, b: Body)
    requires OddNormalize(norm)
    ensures Contribution(norm, dt, a, b) == Neg(Contribution(norm, dt, b, a))
  {
    var r := Separation(a, b);
    assert Separation(b, a) == Neg(r);
    assert norm(Neg(r)) == Neg(norm(r));
    assert LengthSquared(Neg(r)) == LengthSquared(r);
    assert G * dt * a.gravity.mass * b.gravity.mass == G * dt * b.gravity.mass * a.gravity.mass;
  }

  /** Static bodies attract like moving ones: the other body's velocity plays no part. */
  lemma StaticBodiesAttract(norm: Vec2 -> Vec2, dt: real, me: Body, other: Body)
    ensures Contribution(norm, dt, me, other) == Contribution(norm, dt, me, other.(velocity := Static))
  {
  }

  /** Removing the row at `k` takes exactly its contribution out of the sum. */
  lemma {:induction false} PullRemove(norm: Vec2 -> Vec2, dt: real, me: Body, others: seq<Body>, k: nat)
    requires k < |others|
    ensures Pull(norm, dt, me, others) ==
            Add(Pull(norm, dt, me, others[..k] + others[k + 1..]), Contribution(norm, dt, me, others[k]))
    decreases |others|
  {
    var n := |others|;
    if k == n - 1 {
      assert others[..k] + others[k + 1..] == others[..n - 1];
    } else {
      var init := others[..n - 1];
      var rest := others[..k] + others[k + 1..];
      var restInit := init[..k] + init[k + 1..];
      assert rest == restInit + [others[n - 1]] by {
        assert rest[..|rest| - 1] == restInit;
      }
      var a := Pull(norm, dt, me, restInit);
      var cK := Contribution(norm, dt, me, others[k]);
      var cLast := Contribution(norm, dt, me, others[n - 1]);
      assert Pull(norm, dt, me, others) == Add(Add(a, cK), cLast) by {
        PullRemove(norm, dt, me, init, k);
      }
      assert Pull(norm, dt, me, rest) == Add(a, cLast) by {
        assert rest[..|rest| - 1] == restInit;
      }
      AddSwap(a, cK, cLast);
    }
  }

  lemma AddSwap(a: Vec2, b: Vec2, c: Vec2)
    ensures Add(Add(a, b), c) == Add(Add(a, c), b)
  {
  }

  /** The sum does not depend on the order in which the query yields the rows. */
  lemma {:induction false} PullPermutation(norm: Vec2 -> Vec2, dt: real, me: Body, s: seq<Body>, t: seq<Body>)
    requires multiset(s) == multiset(t)
    ensures Pull(norm, dt, me, s) == Pull(norm, dt, me, t)
    decreases |s|
  {
    if s == [] {
      assert |t| == |multiset(t)| == 0;
    } else {
      var x := s[|s| - 1];
      var init := s[..|s| - 1];
      assert s == init + [x];
      assert x in multiset(t);
      var k :| 0 <= k < |t| && t[k] == x;
      var rest := t[..k] + t[k + 1..];
      assert t == t[..k] + [t[k]] + t[k + 1..];
      assert multiset(rest) == multiset(t) - multiset{x};
      assert multiset(init) == multiset(s) - multiset{x};
      PullPermutation(norm, dt, me, init, rest);
      PullRemove(norm, dt, me, t, k);
    }
  }

  /**
   Each body's new velocity depends only on the snapshot's contents, not on
   the order of iteration.
   */
  lemma NewVelocityOrderIndependent(norm: Vec2 -> Vec2, dt: real, query: seq<Body>, reordered: seq<Body>, me: Body)
    requires me.velocity.Value? && multiset(query) == multiset(reordered)
    ensures NewVelocity(norm, dt, query, me) == NewVelocity(norm, dt, reordered, me)
  {
    PullPermutation(norm, dt, me, query, reordered);
  }

  /**
   `move_velocity` (translation part): every moving row's translation
   advances by `v * dt` in x and y, z stays; static rows are untouched.
   The query pairs `translations[i]` (mutable) with `velocities[i]`.
   */
  method MoveVelocity(translations: array<Vec3>, velocities: seq<Velocity>, dt: real)
    requires translations.Length == |velocities|
    modifies translations
    ensures forall i :: 0 <= i < translations.Length && velocities[i].Static? ==>
              translations[i] == old(translations[i])
    ensures forall i :: 0 <= i < translations.Length && velocities[i].Value? ==>
              translations[i] == Vec3(old(translations[i]).x + velocities[i].v.x * dt,
                                      old(translations[i]).y + velocities[i].v.y * dt,
                                      old(translations[i]).z)
  {
    for i := 0 to translations.Length
      invariant forall k :: 0 <= k < i && velocities[k].Static? ==> translations[k] == old(translations[k])
      invariant forall k :: 0 <= k < i && velocities[k].Value? ==>
                  translations[k] == Vec3(old(translations[k]).x + velocities[k].v.x * dt,
                                          old(translations[k]).y + velocities[k].v.y * dt,
                                          old(translations[k]).z)
      invariant forall k :: i <= k < translations.Length ==> translations[k] == old(translations[k])
    {
      if velocities[i].Value? {
        var v := velocities[i].v;
        var translation := translations[i];
        var displacement := Scale(dt, v);
        translations[i] := Vec3(translation.x + displacement.x, translation.y + displacement.y, translation.z + 0.0);
      }
    }
  }
}
