/** Three-component positions and the few vector operations the physics
    kernel performs on them (numpy element-wise arithmetic on length-3
    float arrays in the original, exact `real` arithmetic here). */
module Vectors {

  datatype Vec3 = Vec3(x: real, y: real, z: real)

  const Zero := Vec3(0.0, 0.0, 0.0)

  function Add(u: Vec3, v: Vec3): (r: Vec3)
    ensures Sub(r, v) == u
  {
    Vec3(u.x + v.x, u.y + v.y, u.z + v.z)
  }

  function Sub(u: Vec3, v: Vec3): (r: Vec3)
  {
    Vec3(u.x - v.x, u.y - v.y, u.z - v.z)
  }

  function Scale(v: Vec3, k: real): (r: Vec3)
    ensures k == 0.0 ==> r == Zero
    ensures k == 1.0 ==> r == v
  {
    Vec3(v.x * k, v.y * k, v.z * k)
  }

  /** The same point with its height replaced (`pos[1] = h`). */
  function WithY(v: Vec3, h: real): (r: Vec3)
    ensures r.y == h && r.x == v.x && r.z == v.z
  {
    Vec3(v.x, h, v.z)
  }
}
