/** Three-component vectors over the reals, standing in for Unity's `float3`.
    IEEE-754 rounding is abstracted away: every component is an exact real. */
module Vectors {

  datatype Vec3 = Vec3(x: real, y: real, z: real)

  const Zero: Vec3 := Vec3(0.0, 0.0, 0.0)

  function Add(a: Vec3, b: Vec3): Vec3 {
    Vec3(a.x + b.x, a.y + b.y, a.z + b.z)
  }

  /** Component-wise multiplication by a scalar (`float3 * float`). */
  function Scale(a: Vec3, k: real): Vec3 {
    Vec3(a.x * k, a.y * k, a.z * k)
  }

  /** A vector whose only non-zero component is the vertical one. */
  function Up(h: real): Vec3 {
    Vec3(0.0, h, 0.0)
  }

  /** `math.abs` on a real. */
  function Abs(r: real): real {
    if r < 0.0 then -r else r
  }
}
