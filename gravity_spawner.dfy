/**
 Placing a gravity well with the mouse, `src/gravity_spawner.rs`. Holding
 the left button previews a well at the cursor (a `Prediction::Insert`);
 releasing it commits: the prediction is reset, every deletable well is
 removed and one new static well is spawned at the cursor.

 The cursor's world position comes from the camera projection, which is not
 modelled: it is the input `worldPos`, `None` when the cursor is outside
 the window.
 */
module Spawner {
  import opened Common
  import opened Gravity

  /** The `Prediction` resource. */
  datatype Prediction = None | Delete(entity: Entity) | Insert(position: Vec2, body: GravitationalBody)

  /** The three queries on the left mouse button this frame. */
  datatype MouseButton = MouseButton(justReleased: bool, pressed: bool, justPressed: bool)

  /** Marker components of the spawned well. */
  datatype Marker = StaticBody | Deletable | LevelEntity

  /** The bundle the commit spawns. */
  datatype Planet = Planet(translation: Vec3, body: GravitationalBody, spriteSize: real, markers: set<Marker>)

  /** The commands the system queues. */
  datatype SpawnerCommand = SetPrediction(prediction: Prediction) | Despawn(entity: Entity) | Spawn(planet: Planet)

  /** Mass and radius of every placed well. */
  const WellMass: real := 10000.0
  const WellRadius: real := 10.0

  /** Side of the well's sprite. */
  const WellSpriteSize: real := 30.0

  datatype Outcome = NoChange | Preview | Commit

  /**
   Which branch the system takes: the two early returns on the button
   flags, the cursor test, and `spawning` choosing commit over preview.
   */
  function Decide(button: MouseButton, prediction: Prediction, worldPos: Option<Vec2>): (o: Outcome)
    // neither held nor just released
    ensures !button.justReleased && !button.pressed ==> o == NoChange
    // held or released without a fresh press while nothing is predicted
    ensures !button.justPressed && prediction == Prediction.None ==> o == NoChange
    // no cursor position
    ensures worldPos == Option.None ==> o == NoChange
    ensures o == Commit <==>
              button.justReleased && (button.justPressed || prediction != Prediction.None) && worldPos.Some?
    ensures o == Preview <==>
              !button.justReleased && button.pressed && (button.justPressed || prediction != Prediction.None) &&
              worldPos.Some?
  {
    var spawning := button.justReleased;
    var testing := button.pressed;
    var initialized := button.justPressed;
    if (spawning || testing) && !initialized && prediction == Prediction.None then NoChange
    else if !spawning && !testing then NoChange
    else if worldPos == Option.None then NoChange
    else if spawning then Commit
    else Preview
  }

  /**
   `gravity_spawner`. `deletables` are the entities of the `Deletable`
   query. The prediction is only replaced through a queued command.
   */
  method GravitySpawner(button: MouseButton, prediction: Prediction, worldPos: Option<Vec2>, deletables: seq<Entity>)
    returns (commands: seq<SpawnerCommand>)
    ensures Decide(button, prediction, worldPos) == NoChange ==> commands == []
    ensures Decide(button, prediction, worldPos) == Preview ==>
              commands == [SetPrediction(Insert(worldPos.value, GravitationalBody(WellMass, WellRadius)))]
    ensures Decide(button, prediction, worldPos) == Commit ==>
              |commands| == |deletables| + 2 &&
              commands[0] == SetPrediction(Prediction.None) &&
              (forall k :: 0 <= k < |deletables| ==> commands[k + 1] == Despawn(deletables[k])) &&
              commands[|commands| - 1] ==
                Spawn(Planet(Vec3(worldPos.value.x, worldPos.value.y, 0.0), GravitationalBody(WellMass, WellRadius),
                             WellSpriteSize, {StaticBody, Deletable, LevelEntity}))
    // only a commit spawns or removes entities
    ensures forall k :: 0 <= k < |commands| && !commands[k].SetPrediction? ==>
              Decide(button, prediction, worldPos) == Commit
  {
    commands := [];
    var spawning := button.justReleased;
    var testing := button.pressed;
    var initialized := button.justPressed;

    if (spawning || testing) && !initialized && prediction == Prediction.None {
      return;
    }
    if !spawning && !testing {
      return;
    }
    if worldPos.Some? {
      var pos := worldPos.value;
      if spawning {
        commands := [SetPrediction(Prediction.None)];
        var k := 0;
        while k < |deletables|
          invariant 0 <= k <= |deletables|
          invariant |commands| == k + 1 && commands[0] == SetPrediction(Prediction.None)
          invariant forall m :: 0 <= m < k ==> commands[m + 1] == Despawn(deletables[m])
        {
          commands := commands + [Despawn(deletables[k])];
          k := k + 1;
        }
        var planet := Planet(Vec3(pos.x, pos.y, 0.0), GravitationalBody(WellMass, WellRadius),
                             WellSpriteSize, {StaticBody, Deletable, LevelEntity});
        commands := commands + [Spawn(planet)];
      } else {
        commands := [SetPrediction(Insert(pos, GravitationalBody(WellMass, WellRadius)))];
      }
    }
  }
}
