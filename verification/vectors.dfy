/**
 * Three-component vectors of reals, and the floating-point behaviour the
 * gravity kernel depends on.
 *
 * Addition, subtraction and scaling are exact. The three operations whose IEEE
 * behaviour matters to the kernel (the Euclidean norm, the finiteness test and
 * division by the cubed distance) are carried in a `FloatModel` value supplied
 * by the caller, so the control logic is proved for every choice of them.
 */
module Vectors {

  datatype Vec3 = Vec3(x: real, y: real, z: real)

  const Zero: Vec3 := Vec3(0.0, 0.0, 0.0)

  function Add(a: Vec3, b: Vec3): Vec3 {
    Vec3(a.x + b.x, a.y + b.y, a.z + b.z)
  }

  function Sub(a: Vec3, b: Vec3): Vec3 {
    Vec3(a.x - b.x, a.y - b.y, a.z - b.z)
  }

  function Scale(k: real, a: Vec3): Vec3 {
    Vec3(k * a.x, k * a.y, k * a.z)
  }

  function SqLength(a: Vec3): real {
    a.x * a.x + a.y * a.y + a.z * a.z
  }

  /**
   * The floating-point operations left abstract: `norm` is `magnitude()`,
   * `isFinite` is cgmath's `is_finite()` on all three components, and
   * `divide(v, s)` is the component-wise quotient `v / s`.
   */
  datatype FloatModel = FloatModel(
    norm: Vec3 -> real,
    isFinite: Vec3 -> bool,
    divide: (Vec3, real) -> Vec3)

  /** Division by a non-zero scalar is exact. */
  ghost predicate ExactDivision(fp: FloatModel) {
    forall v: Vec3, s: real {:trigger fp.divide(v, s)} :: s != 0.0 ==> fp.divide(v, s) == Scale(1.0 / s, v)
  }

  /** IEEE 754: dividing anything by zero yields an infinity or a NaN. */
  ghost predicate ZeroDivisionIsNotFinite(fp: FloatModel) {
    forall v: Vec3 {:trigger fp.divide(v, 0.0)} :: !fp.isFinite(fp.divide(v, 0.0))
  }
}
