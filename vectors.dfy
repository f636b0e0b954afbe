/** The 2D point/vector value type (Vector2) the spline is computed over.
    Coordinates are exact reals; every operation builds a new value. */
module Vectors {

  datatype Vec = Vec(x: real, y: real)

  /** `a + b` */
  function Add(a: Vec, b: Vec): Vec {
    Vec(a.x + b.x, a.y + b.y)
  }

  /** `a - b` */
  function Sub(a: Vec, b: Vec): Vec {
    Vec(a.x - b.x, a.y - b.y)
  }

  /** `k * v` and `v * k` */
  function Scale(k: real, v: Vec): Vec {
    Vec(k * v.x, k * v.y)
  }
}
