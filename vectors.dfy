/** Three-component vectors over the reals, standing for the engine's
    single-precision Vector3 (rounding is not modelled). */
module Vectors {

  datatype Vec3 = Vec3(x: real, y: real, z: real)

  const Zero: Vec3 := Vec3(0.0, 0.0, 0.0)

  function Add(a: Vec3, b: Vec3): Vec3 {
    Vec3(a.x + b.x, a.y + b.y, a.z + b.z)
  }

  function Sub(a: Vec3, b: Vec3): Vec3 {
    Vec3(a.x - b.x, a.y - b.y, a.z - b.z)
  }

  function Scale(k: real, a: Vec3): Vec3 {
    Vec3(k * a.x, k * a.y, k * a.z)
  }

  /** Scaling distributes over a difference. */
  lemma ScaleSub(k: real, u: Vec3, v: Vec3)
    ensures Sub(Scale(k, u), Scale(k, v)) == Scale(k, Sub(u, v))
  {
  }

  function Neg(a: Vec3): Vec3 {
    Vec3(-a.x, -a.y, -a.z)
  }

  function Dot(a: Vec3, b: Vec3): real {
    a.x * b.x + a.y * b.y + a.z * b.z
  }

  function MinR(a: real, b: real): real { if a < b then a else b }

  function MaxR(a: real, b: real): real { if a > b then a else b }

  function AbsR(a: real): real { if a < 0.0 then -a else a }

  /** Component-wise minimum and maximum (Vector3.Min / Vector3.Max). */
  function Min(a: Vec3, b: Vec3): Vec3 {
    Vec3(MinR(a.x, b.x), MinR(a.y, b.y), MinR(a.z, b.z))
  }

  function Max(a: Vec3, b: Vec3): Vec3 {
    Vec3(MaxR(a.x, b.x), MaxR(a.y, b.y), MaxR(a.z, b.z))
  }

  /** The indexer v[i] of Vector3, for i in 0..2. */
  function Get(v: Vec3, i: nat): real
    requires i < 3
  {
    if i == 0 then v.x else if i == 1 then v.y else v.z
  }

  /** The assignment v[i] = c of Vector3, as a new value. */
  function With(v: Vec3, i: nat, c: real): (r: Vec3)
    requires i < 3
    ensures Get(r, i) == c
    ensures forall j :: 0 <= j < 3 && j != i ==> Get(r, j) == Get(v, j)
  {
    if i == 0 then v.(x := c) else if i == 1 then v.(y := c) else v.(z := c)
  }

  /** Component-wise a <= b. */
  predicate LessEq(a: Vec3, b: Vec3) {
    a.x <= b.x && a.y <= b.y && a.z <= b.z
  }
}
