/** Values shared by the maze and the key registry. */
module Geometry {

  /** A point of the scene, as a three.js Vector3 holds it. */
  datatype Vec3 = Vec3(x: real, y: real, z: real)

  datatype Option<T> = None | Some(value: T)
}
