# run-jam: a verified model of the game's state-update systems

This project models, in Dafny, the small sequential systems of the run-jam
arcade gravity game that change game state:

- **the gravity tick** (`Gravity`): `calculate_gravity` adds to each moving
  body's velocity the pull of every other body, read from one unmodified
  snapshot of the query, and queues the new velocities as commands;
  `move_velocity` moves every moving body by `v * dt`;
- **action selection** (`Actions`): `set_action` looks at the first requested
  action and always accepts `GravityWell`. It accepts `PortableHole` or
  `GravityInverter` only while that counter is positive, and then spends one;
- **pickup collection** (`Pickups`): `check_pickup` despawns every pickup
  within its radius of a player, records the current goal or sets the active
  modifier, and sends one `PickupCollected` event per player–pickup hit (a
  pickup two players reach is announced, queued for despawn and, for a
  goal, recorded twice); it does nothing while the Teleport modifier is
  active;
- **goal consumption** (`Goals`): `check_goal` despawns every goal within its
  radius of a player;
- **placing a gravity well** (`Spawner`): `gravity_spawner` turns the mouse
  button's state and the current `Prediction` into no change, a preview, or
  a commit that resets the prediction, removes the deletable wells and
  spawns one static well.

`src/main.rs` schedules neither `gravity::move_velocity` nor
`goal::check_goal`, and declares no `goal` module. Both systems are modelled
as written.

One module per source file (`gravity.dfy`, `actions.dfy`, `pickup.dfy`,
`goal.dfy`, `gravity_spawner.dfy`), plus `common.dfy` for entities, `Option`
and the vector types.

Modelling choices:

- Bevy defers `commands` until after the system has run. Systems that only
  queue commands (`calculate_gravity`, `check_goal`, `gravity_spawner`) are
  methods that return the queued commands in order, and read their queries
  as immutable sequences. For gravity and goals the model also applies the
  queue (`ApplyInserts`, `Despawn`) and proves what the world looks like
  afterwards.
- Resources changed in place through `ResMut` (`AvailableActions`,
  `GoalStatus`, `ActivePickup`) are classes. Methods that change them are
  tied by their `ensures` to a specification function (`SelectAction`,
  `CheckPickupEffect`), and the properties are proved about that function.
- `move_velocity` writes transforms in place. It is a method over an array
  of translations.
- `f32` is modelled as `real`. `Vec2::normalize` is the parameter `norm`.
  The only fact assumed about `norm` (predicate `OddNormalize`) is
  `norm(-r) == -norm(r)`, and only the antisymmetry lemma uses it.
  `Vec3::distance` is the parameter `dist`.
- Rust's `usize` is the newtype `usize`. The counters are decremented only
  under a `> 0` guard, so the verifier proves that they never underflow.
- `gravity_spawner` attaches `gravity::GravitationTransform::Static`, but
  `src/gravity.rs` has no such type (it has `Velocity::Static`). The spawned
  well therefore carries a `StaticBody` marker.
- `GoalStatus` and `LevelEvent` are imported from `crate::level`
  (`src/pickup.rs:4`), but `src/level.rs` does not define them. `GoalStatus` is modelled as `{current, completed}`, with a
  type parameter for the goal type. `LevelEvent` has only the
  `PickupCollected` variant here.

## Model

| member | source | states |
|---|---|---|
| `Gravity.Contribution` | src/gravity.rs:23-31 | one iteration of the inner loop: the row of the body itself and a pair with `d_sq <= 30` add nothing, any other pair adds `Attraction` (its properties are the two lemmas below) |
| `Gravity.Attraction` | src/gravity.rs:26-30 | the added term `G*dt*m_i*m_j*normalize(r)/d_sq`, defined only for `d_sq > 30`, so the division is never by zero |
| `Gravity.Pull` | src/gravity.rs:22-32 | the sum of the contributions of the rows, in iteration order (its properties are `PullRemove` and `PullPermutation`) |
| `Gravity.ContributionVanishes` | src/gravity.rs:22-31 | a body never pulls on itself, and a pair whose squared separation is at most 30 contributes nothing (so the division only happens when `d_sq > 30 > 0`) |
| `Gravity.ContributionFormula` | src/gravity.rs:26-30 | beyond the threshold the contribution is `G*dt*m_i*m_j/d_sq` times `normalize(r)`, with `r` pointing from the body toward the other one |
| `Gravity.StaticBodiesAttract` | src/gravity.rs:22-30 | the other body's velocity plays no part in its pull, so static bodies attract like moving ones |
| `Gravity.ContributionAntisymmetric` | src/gravity.rs:26-30 | for an odd `normalize`, the contribution of b to a is the negation of the contribution of a to b |
| `Gravity.IsolatedPullIsZero` | src/gravity.rs:22-32 | if every other body is within the threshold, the summed pull is exactly zero |
| `Gravity.IsolatedBodyKeepsVelocity` | src/gravity.rs:21-33 | a moving body with no other body beyond the threshold keeps its velocity exactly |
| `Gravity.PullRemove` | src/gravity.rs:22-32 | removing one row from the inner loop's sequence takes out exactly its contribution |
| `Gravity.PullPermutation` | src/gravity.rs:22-32 | the summed pull is the same for any order in which the query yields the rows |
| `Gravity.NewVelocityOrderIndependent` | src/gravity.rs:19-33 | a body's new velocity depends only on the contents of the snapshot, not on iteration order |
| `Gravity.CalculateGravity` | src/gravity.rs:14-36 | the queued commands are, in query order, one velocity insert per moving body carrying its velocity plus the pull computed from the unmodified snapshot. Static bodies get no command |
| `Gravity.AccumulateVelocity` | src/gravity.rs:20-32 | the inner loop leaves in a moving body's velocity exactly its old velocity plus the summed pull of every row of the snapshot |
| `Gravity.GravityTickCommits` | src/gravity.rs:19-34 | applying the commands of the first n iterations gives each of those moving rows its snapshot-computed velocity. All other rows, and all positions and masses, stay the same |
| `Gravity.GravityTickEffect` | src/gravity.rs:19-33 | after the whole tick, static bodies are unchanged and every moving body has exactly its new velocity, whatever was written to the others |
| `Gravity.MoveVelocity` | src/gravity.rs:38-49 | static rows keep their translation. A moving row's translation changes by `v.x*dt` in x and `v.y*dt` in y, and z stays the same |
| `Actions.SelectAction` | src/actions.rs:22-45 | with no event nothing changes. `GravityWell` is always accepted at no cost. `PortableHole` and `GravityInverter` are accepted iff their counter is positive, and then cost exactly one of that counter only. An accepted action is the queued next state. A rejected one changes nothing. Counters never grow |
| `Actions.OnlyFirstEventHandled` | src/actions.rs:22 | events after the first one pending in a frame have no effect |
| `Actions.AvailableActions.constructor` | src/actions.rs:11-15 | the default resource holds no portable hole and no gravity inverter |
| `Actions.AvailableActions.SetAction` | src/actions.rs:17-46 | the counters updated in place and the queued `NextState` are exactly those of `SelectAction` on the old counters |
| `Goals.ReachedBy` | src/goal.rs:15-19 | the despawns the inner loop queues for one player, in goal order (characterised by `ReachedByIff`) |
| `Goals.GoalDespawns` | src/goal.rs:14-20 | the despawns of both loops, player by player (characterised by `GoalDespawnsIff`) |
| `Goals.ReachedByIff` | src/goal.rs:15-18 | for one player, an entity is queued iff it is a goal whose distance to the player is at most its radius |
| `Goals.GoalDespawnsIff` | src/goal.rs:14-20 | over all players, an entity is queued iff it is a goal that some player reaches (inclusive boundary) |
| `Goals.CheckGoal` | src/goal.rs:9-21 | the nested loops queue one despawn per (player, goal) pair in reach, player by player, and queue nothing else |
| `Goals.CheckGoalOutcome` | src/goal.rs:14-19 | once the despawns are applied, a goal is gone iff some player reaches it. Goals beyond every player's reach remain. No entity that is not a goal is touched |
| `Pickups.CheckPickupEffect` | src/pickup.rs:35-54 | the whole system: the Teleport gate, then every player–pickup hit recorded in order. Its own contract states the gate: while the active pickup is `Teleport`, the pass changes nothing. `CheckPickupOutcome` states the rest |
| `Pickups.CollectedBy` | src/pickup.rs:40-41 | the pickups within reach of one player, in query order (characterised by `CollectedByIff`) |
| `Pickups.Collected` | src/pickup.rs:39-41 | the pickups collected, player by player (characterised by `CollectedIff`) |
| `Pickups.Record` | src/pickup.rs:42-51 | the body of the `if` for one collected pickup: despawn it, send `PickupCollected(kind)`, append `current` to `completed` for a `Goal`, otherwise make `kind` the active pickup (stated by `CollectingGoal` and `CollectingModifier`) |
| `Pickups.RecordAll` | src/pickup.rs:39-52 | the hits recorded in order (stated by `RecordAllOutputs`, `RecordAllCompleted` and `RecordAllActive`) |
| `Pickups.CollectedByIff` | src/pickup.rs:40-41 | for one player, a pickup is collected iff it is in the query and within its radius of that player |
| `Pickups.CollectedIff` | src/pickup.rs:39-41 | a pickup is collected iff its distance to some player is at most its radius |
| `Pickups.RecordAllOutputs` | src/pickup.rs:42-51 | each collected pickup adds exactly one despawn of its entity and one `PickupCollected` event of its type, in collection order. Earlier entries are kept |
| `Pickups.RecordAllCompleted` | src/pickup.rs:43-45 | `completed` only grows. The old list is a prefix, and one copy of `current` is appended per collected `Goal` |
| `Pickups.RecordAllActive` | src/pickup.rs:43-48 | if only goals are collected, the active pickup is unchanged. Otherwise it is the type of the last collected non-goal pickup |
| `Pickups.CollectingGoal` | src/pickup.rs:43-46 | collecting a `Goal` appends `current` to `completed` and leaves the active pickup unchanged |
| `Pickups.CollectingModifier` | src/pickup.rs:47-48 | collecting any other pickup makes its type the active pickup and leaves `completed` unchanged |
| `Pickups.DespawnsAreHits` | src/pickup.rs:42 | starting from an empty queue, the entities despawned are exactly those of the collected pickups |
| `Pickups.DespawnedIff` | src/pickup.rs:39-42 | starting from an empty queue, an entity is despawned iff it is a pickup within its radius of some player |
| `Pickups.CheckPickupOutcome` | src/pickup.rs:35-54 | under `Teleport` nothing happens. Otherwise exactly the pickups that some player reaches are despawned, with one event per despawn, and the old `completed` is a prefix of the new one |
| `Pickups.GoalStatus.constructor` | src/pickup.rs:29 | the resource holds the goal in progress and the goals completed so far |
| `Pickups.ActivePickup.constructor` | src/pickup.rs:20-21 | the resource holds the given modifier |
| `Pickups.CheckPickup` | src/pickup.rs:25-55 | the resources after the nested loops, and the despawns and events they emit, are exactly those of `CheckPickupEffect` from the old resources. `current` is not changed |
| `Spawner.Decide` | src/gravity_spawner.rs:33-71 | no change if the button is neither held nor just released, if it is held or released without a fresh press while nothing is predicted, or if there is no cursor. Otherwise it commits iff the button was just released, and previews iff it is held and not released |
| `Spawner.GravitySpawner` | src/gravity_spawner.rs:21-100 | no change queues nothing. A preview only sets `Prediction::Insert(pos, GravitationalBody(10000, 10))`. A commit resets the prediction, despawns every deletable entity, then spawns exactly one static, deletable well of mass 10000 and radius 10 at `(x, y, 0)`. Only a commit spawns or removes entities |

## Left out

- Floating point: `f32` rounding, NaN and infinities are not modelled. Everything is over exact reals.
- `normalize` and `distance`: their square roots are not modelled. They are the parameters `norm` and `dist`, and `norm` is assumed only to be odd.
- Heading in `move_velocity` (`src/gravity.rs:44-45`): the `atan2` and the quaternion rotation are trigonometry over floats.
- Mouse picking (`src/gravity_spawner.rs:45-69`): the screen, NDC and world projection is camera matrix arithmetic. The cursor's world position is the input `worldPos`. The panics of `single()` and `unwrap()` are not modelled.
- Audio playback in `check_pickup` (`src/pickup.rs:46,49`): these are calls into the audio library.
- `despawn_recursive`: the children of a despawned entity are not modelled. A despawn removes only the entity itself.
- Event-reader and command-queue mechanics of the engine: whether the events after the first one stay unread for a later frame, and how commands for an already despawned entity behave. The model returns the queue, and applies it only for gravity and goals.
- `Pickups.CheckPickup`: the pickup and spawner command queues are returned, not applied to a world, so the model says nothing about how two despawns of the same entity (two players in reach of one pickup) are resolved.
- `PICKUPS` (`src/pickup.rs:23`) and the `TrajectoryPoint` marker (`src/gravity_spawner.rs:11-12`): `check_pickup` and `gravity_spawner` never use them.
- `Prediction::Delete`: `gravity_spawner` reads the prediction but never produces this variant.
- Sprites and textures of the spawned well: only its sprite size (30) is recorded.
- `src/main.rs`: app and plugin wiring and fixed-timestep scheduling. It schedules systems that `src/gravity.rs` does not define (`adjust_rotation`, `smooth_movement`, `predict_trajectory`, `check_crash`, `set_sprite_to_radius`, `delayed_activity_flasher`) and uses the constant `gravity::FIXED_TIME_MILIS`, which `src/gravity.rs` does not define either. It also uses `pickup::Score`, which `src/pickup.rs` does not define, and `level` systems and types (`start_level`, `clear_level`, `update_backdrop`, `spawn_planet`, `spawn_goal`, `spawn_pickup`, `Backdrop`) that `src/level.rs` does not define. None of these is part of this model. `gravity::GravitationTransform`, used at `src/gravity_spawner.rs:89` and in `src/main_camera.rs`, is not defined in `src/gravity.rs` either.
- `src/main_camera.rs`, `src/player.rs`, `src/level.rs`, the menu, credits, game-over and in-game UI, `src/assets.rs` and `src/space_material.rs`: these are rendering, asset handles, a diagnostic print and UI markup, with no game-state logic to verify.
- `actions::pickup_action_collected`, scheduled at `src/main.rs:117`, is not defined in `src/actions.rs` and is not modelled. No modelled member increases the action counters.
