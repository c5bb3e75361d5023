/** The 1 by 2 numeric arrays the components use for position, velocity,
    acceleration and force: x at (0,0), y at (0,1). */
module Vectors {

  datatype Vec = Vec(x: real, y: real)

  /** What `MdArray.zeros({shape: [1, 2]})` yields. */
  const Zero: Vec := Vec(0.0, 0.0)

  /** Elementwise sum. */
  function Add(a: Vec, b: Vec): Vec {
    Vec(a.x + b.x, a.y + b.y)
  }

  /** Multiplication by a scalar (`mul(k)`). */
  function Scale(a: Vec, k: real): Vec {
    Vec(k * a.x, k * a.y)
  }
}
