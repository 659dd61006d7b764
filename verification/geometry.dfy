/**
 Vectors, planar points and the component clamp used by the point-charge engine.

 The program works with CHAI3D's three-component `cVector3d` (doubles) and
 with planar screen coordinates; both are modelled over `real`, so rounding
 is not represented.
 */
module Geometry {

  /** A three-component vector (`cVector3d`). */
  datatype Vec3 = Vec3(x: real, y: real, z: real)

  /** A planar point in simulation-window coordinates. */
  datatype Point = Point(x: real, y: real)

  const Zero: Vec3 := Vec3(0.0, 0.0, 0.0)

  function Add(a: Vec3, b: Vec3): Vec3 {
    Vec3(a.x + b.x, a.y + b.y, a.z + b.z)
  }

  function Sub(a: Vec3, b: Vec3): Vec3 {
    Vec3(a.x - b.x, a.y - b.y, a.z - b.z)
  }

  function Neg(a: Vec3): Vec3 {
    Vec3(-a.x, -a.y, -a.z)
  }

  function Scale(a: Vec3, k: real): Vec3 {
    Vec3(a.x * k, a.y * k, a.z * k)
  }

  function Dot(a: Vec3, b: Vec3): real {
    a.x * b.x + a.y * b.y + a.z * b.z
  }

  /** `cVector3d::lengthsq`. */
  function LengthSq(a: Vec3): real {
    Dot(a, a)
  }

  /** Lifts a planar point into the simulation plane z = 0. */
  function InPlane(p: Point): Vec3 {
    Vec3(p.x, p.y, 0.0)
  }

  /** The planar part of a vector. */
  function Planar(a: Vec3): Point {
    Point(a.x, a.y)
  }

  /** The squared length of a planar point seen as a vector. */
  function PlanarLengthSq(p: Point): real {
    p.x * p.x + p.y * p.y
  }

  lemma LengthSqNonNegative(a: Vec3)
    ensures LengthSq(a) >= 0.0
  {
    assert a.x * a.x >= 0.0 && a.y * a.y >= 0.0 && a.z * a.z >= 0.0;
  }

  /**
   `cVector3d::normalize`, with the square root left abstract: `inv` is the
   inverse length the caller's arithmetic produces for a vector, and the
   result is the vector scaled by it. Whatever `inv` is, a vector with no
   out-of-plane part keeps none, and the zero vector stays zero.
   */
  function Normalize(a: Vec3, inv: Vec3 -> real): (u: Vec3)
    ensures a.z == 0.0 ==> u.z == 0.0
    ensures a == Zero ==> u == Zero
  {
    Scale(a, inv(a))
  }

  /** Normalising the opposite vector gives the opposite unit, when `inv` treats both alike. */
  lemma NormalizeOpposite(a: Vec3, inv: Vec3 -> real)
    requires inv(Neg(a)) == inv(a)
    ensures Normalize(Neg(a), inv) == Neg(Normalize(a, inv))
  {
    var k := inv(a);
    assert (-a.x) * k == -(a.x * k);
    assert (-a.y) * k == -(a.y * k);
    assert (-a.z) * k == -(a.z * k);
  }

  /** `inv` is exact at `a`: it returns the nonnegative reciprocal of the length. */
  ghost predicate ExactAt(inv: Vec3 -> real, a: Vec3) {
    inv(a) >= 0.0 && inv(a) * inv(a) * LengthSq(a) == 1.0
  }

  /** Where the inverse length is exact, normalising yields a unit vector. */
  lemma NormalizeIsUnit(a: Vec3, inv: Vec3 -> real)
    requires ExactAt(inv, a)
    ensures LengthSq(Normalize(a, inv)) == 1.0
  {
    var k := inv(a);
    var u := Normalize(a, inv);
    calc {
      LengthSq(u);
      (a.x * k) * (a.x * k) + (a.y * k) * (a.y * k) + (a.z * k) * (a.z * k);
      { assert (a.x * k) * (a.x * k) == k * k * (a.x * a.x);
        assert (a.y * k) * (a.y * k) == k * k * (a.y * a.y);
        assert (a.z * k) * (a.z * k) == k * k * (a.z * a.z); }
      k * k * (a.x * a.x + a.y * a.y + a.z * a.z);
      1.0;
    }
  }

  /** The normalised vector of an in-plane vector has a planar part of length 1, where `inv` is exact. */
  lemma PlanarUnit(a: Vec3, inv: Vec3 -> real)
    requires a.z == 0.0 && ExactAt(inv, a)
    ensures PlanarLengthSq(Planar(Normalize(a, inv))) == 1.0
  {
    NormalizeIsUnit(a, inv);
  }

  /**
   Restricts `v` to `[lo, hi]` the way the program's pair of guarded
   assignments does (`if (v > hi) v = hi; if (v < lo) v = lo;`).
   */
  function Clamp(v: real, lo: real, hi: real): (r: real)
    requires lo <= hi
    ensures lo <= r <= hi
    ensures lo <= v <= hi ==> r == v
  {
    if v > hi then hi else if v < lo then lo else v
  }

  function Abs(v: real): real {
    if v < 0.0 then -v else v
  }

  /** The clamp returns the point of `[lo, hi]` nearest to `v`. */
  lemma ClampIsNearest(v: real, lo: real, hi: real, u: real)
    requires lo <= hi
    requires lo <= u <= hi
    ensures Abs(Clamp(v, lo, hi) - v) <= Abs(u - v)
  {
  }

  /** A clamp to a symmetric interval commutes with negation. */
  lemma ClampOdd(v: real, b: real)
    requires 0.0 <= b
    ensures Clamp(-v, -b, b) == -Clamp(v, -b, b)
  {
  }
}
