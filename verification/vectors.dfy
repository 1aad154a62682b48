/** Three-component real vectors standing in for glm::vec3 (float rounding is not modelled). */
module Vectors {

  datatype Vec3 = Vec3(x: real, y: real, z: real)

  const Zero: Vec3 := Vec3(0.0, 0.0, 0.0)

  function Add(a: Vec3, b: Vec3): Vec3 {
    Vec3(a.x + b.x, a.y + b.y, a.z + b.z)
  }

  function Sub(a: Vec3, b: Vec3): Vec3 {
    Vec3(a.x - b.x, a.y - b.y, a.z - b.z)
  }

  function Scale(k: real, a: Vec3): Vec3 {
    Vec3(k * a.x, k * a.y, k * a.z)
  }

  /** Squared Euclidean length (the model avoids square roots). */
  function NormSq(a: Vec3): real {
    a.x * a.x + a.y * a.y + a.z * a.z
  }
}

/** The conventional Some/None wrapper. */
module Wrappers {

  datatype Option<T> = None | Some(value: T)
}
