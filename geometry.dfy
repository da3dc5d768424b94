/**
 * Points and vectors of three-dimensional space. A point also carries the time
 * at which it was sampled and its fuzziness (the spread of the fuzzy point).
 * Point.java and Vector.java are not part of this model; the operations below
 * are the ones the force and surface code relies on.
 */
module Geometry {
  import opened Numerics

  datatype Point = Point(x: real, y: real, z: real, time: real, fuzziness: real)

  datatype Vector = Vector(x: real, y: real, z: real)

  const ZeroVector := Vector(0.0, 0.0, 0.0)

  /** A crisp point with time 0 (Point.createXYZ). */
  function CreateXYZ(x: real, y: real, z: real): (p: Point)
    ensures p.x == x && p.y == y && p.z == z && p.fuzziness == 0.0
  {
    Point(x, y, z, 0.0, 0.0)
  }

  /** A crisp point sampled at the given time (Point.createXYZT). */
  function CreateXYZT(x: real, y: real, z: real, time: real): (p: Point)
    ensures p.x == x && p.y == y && p.z == z && p.time == time && p.fuzziness == 0.0
  {
    Point(x, y, z, time, 0.0)
  }

  /** The vector from s to e (Vector.createSE). */
  function CreateSE(s: Point, e: Point): Vector
  {
    Vector(e.x - s.x, e.y - s.y, e.z - s.z)
  }

  /** The point p moved by v; time and fuzziness are kept. */
  function Move(p: Point, v: Vector): Point
  {
    Point(p.x + v.x, p.y + v.y, p.z + v.z, p.time, p.fuzziness)
  }

  function Add(u: Vector, v: Vector): Vector
  {
    Vector(u.x + v.x, u.y + v.y, u.z + v.z)
  }

  /** Vector.magnify */
  function Scale(v: Vector, k: real): Vector
  {
    Vector(k * v.x, k * v.y, k * v.z)
  }

  function Dot(u: Vector, v: Vector): real
  {
    u.x * v.x + u.y * v.y + u.z * v.z
  }

  function Cross(u: Vector, v: Vector): Vector
  {
    Vector(u.y * v.z - u.z * v.y, u.z * v.x - u.x * v.z, u.x * v.y - u.y * v.x)
  }

  /** The squared length. */
  function Norm2(v: Vector): real
  {
    Dot(v, v)
  }

  function Length(v: Vector, sqrt: real -> real): real
  {
    sqrt(Norm2(v))
  }

  /**
   * Vector.normalize: the vector scaled to unit length; the zero vector is
   * returned unchanged, so that its length stays 0.
   */
  function Normalize(v: Vector, sqrt: real -> real): Vector
  {
    var l := Length(v, sqrt);
    if l == 0.0 then ZeroVector else Scale(v, 1.0 / l)
  }

  lemma Norm2NonNegative(v: Vector)
    ensures 0.0 <= Norm2(v)
  {
    SquareZero(v.x);
    SquareZero(v.y);
    SquareZero(v.z);
  }

  lemma Norm2OfScale(v: Vector, k: real)
    ensures Norm2(Scale(v, k)) == k * k * Norm2(v)
  {
  }

  /** A non-zero vector normalizes to a unit vector pointing the same way. */
  lemma NormalizeIsUnit(v: Vector, sqrt: real -> real)
    requires ExactSqrt(sqrt) && Norm2(v) != 0.0
    ensures Norm2(Normalize(v, sqrt)) == 1.0
    ensures 0.0 < Dot(Normalize(v, sqrt), v)
    ensures Cross(Normalize(v, sqrt), v) == ZeroVector
  {
    Norm2NonNegative(v);
    var n := Norm2(v);
    var l := Length(v, sqrt);
    SqrtPositive(sqrt, n);
    assert l * l == n;
    var c := 1.0 / l;
    Norm2OfScale(v, c);
    assert c * c * n == (1.0 / l) * (1.0 / l) * (l * l);
    assert Dot(Scale(v, c), v) == c * n;
  }

  /** Scaling by k scales the length by |k|. */
  lemma LengthOfScale(v: Vector, k: real, sqrt: real -> real)
    requires ExactSqrt(sqrt)
    ensures Length(Scale(v, k), sqrt) == Abs(k) * Length(v, sqrt)
  {
    Norm2NonNegative(v);
    var l := Length(v, sqrt);
    assert 0.0 <= l && l * l == Norm2(v);
    Norm2OfScale(v, k);
    var m := Abs(k) * l;
    assert 0.0 <= m;
    assert m * m == (Abs(k) * Abs(k)) * (l * l);
    assert Abs(k) * Abs(k) == k * k;
    assert Norm2(Scale(v, k)) == m * m;
    SqrtOfSquare(sqrt, m);
  }

  /** A unit vector has length 1. */
  lemma UnitLength(v: Vector, sqrt: real -> real)
    requires ExactSqrt(sqrt) && Norm2(v) == 1.0
    ensures Length(v, sqrt) == 1.0
  {
    SqrtOfSquare(sqrt, 1.0);
  }

  lemma DotOfScale(n: Vector, k: real, w: Vector)
    ensures Dot(Scale(n, k), w) == k * Dot(n, w)
  {
  }
}
