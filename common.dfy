/**
 Shared vocabulary of the model: entity handles, the optional value, and the
 two vector types of the game engine (Vec2, Vec3) over exact reals.
 */
module Common {

  /** An entity handle of the ECS world; only equality is ever used. */
  datatype Entity = Entity(index: nat)

  datatype Option<+T> = None | Some(value: T)

  /** A 2-D vector; the engine's f32 components are modelled as reals. */
  datatype Vec2 = Vec2(x: real, y: real)

  /** A 3-D vector, the `translation` of a transform. */
  datatype Vec3 = Vec3(x: real, y: real, z: real)

  const Zero2: Vec2 := Vec2(0.0, 0.0)

  function Add(a: Vec2, b: Vec2): Vec2 {
    Vec2(a.x + b.x, a.y + b.y)
  }

  function Neg(a: Vec2): Vec2 {
    Vec2(-a.x, -a.y)
  }

  /** Scalar times vector. */
  function Scale(k: real, a: Vec2): Vec2 {
    Vec2(k * a.x, k * a.y)
  }

  /** Vector divided by a non-zero scalar. */
  function Div(a: Vec2, d: real): Vec2
    requires d != 0.0
  {
    Vec2(a.x / d, a.y / d)
  }

  function LengthSquared(a: Vec2): real {
    a.x * a.x + a.y * a.y
  }

  function Sub3(a: Vec3, b: Vec3): Vec3 {
    Vec3(a.x - b.x, a.y - b.y, a.z - b.z)
  }

  /** The `xy()` swizzle: drop the z component. */
  function XY(a: Vec3): Vec2 {
    Vec2(a.x, a.y)
  }

  /**
   The "within radius" test of pickups and goals:
   `a.distance(b) <= radius`, with `dist` standing for the engine's
   Euclidean distance (a square root, left uninterpreted).
   */
  predicate Within(dist: (Vec3, Vec3) -> real, a: Vec3, b: Vec3, radius: real) {
    dist(a, b) <= radius
  }
}
