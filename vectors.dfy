/** Three-component real vectors: the `[x, y, z]` lists lib/System.py uses
    for forces, velocities and positions. */
module Vectors {

  datatype Vec3 = Vec3(x: real, y: real, z: real)

  const Zero: Vec3 := Vec3(0.0, 0.0, 0.0)

  function Add(a: Vec3, b: Vec3): Vec3
  {
    Vec3(a.x + b.x, a.y + b.y, a.z + b.z)
  }

  function Sub(a: Vec3, b: Vec3): Vec3
  {
    Vec3(a.x - b.x, a.y - b.y, a.z - b.z)
  }

  function Scale(a: Vec3, k: real): Vec3
  {
    Vec3(a.x * k, a.y * k, a.z * k)
  }

  /** The sum of the squared components: the radicand of the Euclidean norm. */
  function NormSq(a: Vec3): (r: real)
    ensures 0.0 <= r
  {
    SquareFacts(a.x);
    SquareFacts(a.y);
    SquareFacts(a.z);
    a.x * a.x + a.y * a.y + a.z * a.z
  }

  /** A square is non-negative, and positive when its root is not zero. */
  lemma SquareFacts(s: real)
    ensures 0.0 <= s * s
    ensures s != 0.0 ==> 0.0 < s * s
  {
    if s < 0.0 {
      assert 0.0 < s * s;
    } else if s > 0.0 {
      assert 0.0 < s * s;
    }
  }
}
