/** The fixed-shape matrices of the crate root: `M2x1` is a column vector
    `((f32,), (f32,))` and `M2x2` a row-major matrix `((f32, f32), (f32, f32))`.
    `f32` is modelled as `real`. */
module Types {

  /** `((v0,), (v1,))` */
  datatype M2x1 = M2x1(v0: real, v1: real)

  /** `((m00, m01), (m10, m11))` */
  datatype M2x2 = M2x2(m00: real, m01: real, m10: real, m11: real)

  /** Entry `i` of a column vector, `b.i.0` in the Rust tuple syntax. */
  function AtV(b: M2x1, i: nat): real
    requires i < 2
  {
    if i == 0 then b.v0 else b.v1
  }

  /** Entry `(i, j)` of a matrix, `a.i.j` in the Rust tuple syntax. */
  function At(a: M2x2, i: nat, j: nat): real
    requires i < 2 && j < 2
  {
    if i == 0 then (if j == 0 then a.m00 else a.m01)
    else (if j == 0 then a.m10 else a.m11)
  }

  const Identity: M2x2 := M2x2(1.0, 0.0, 0.0, 1.0)

  function Diag(d0: real, d1: real): M2x2
  {
    M2x2(d0, 0.0, 0.0, d1)
  }
}
