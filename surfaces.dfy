/**
 * Friction surfaces: the plane and the sphere the stylus can stick to. Each
 * answers the signed distance of a point, the point's projection onto the
 * surface and the surface normal there.
 */
module Surfaces {
  import opened Wrappers
  import opened Numerics
  import opened Geometry

  /** A plane through `base` with unit normal `normal`, or a sphere around `base`. */
  datatype FrictionSurface =
    | Plane(base: Point, normal: Vector)
    | Sphere(base: Point, radius: real)

  datatype SurfaceError = NullBase | ZeroNormal | NegativeRadius

  /** What the factories guarantee of every surface they build. */
  predicate ValidSurface(s: FrictionSurface)
  {
    match s
    case Plane(_, n) => Norm2(n) == 1.0
    case Sphere(_, r) => 0.0 <= r
  }

  /**
   * Plane.create(p, normal): a null base is rejected; the normal is normalized
   * and rejected when the normalized vector has length zero.
   */
  function CreatePlane(p: Option<Point>, n: Vector, sqrt: real -> real): (r: Result<FrictionSurface, SurfaceError>)
    ensures p.None? ==> r == Failure(NullBase)
    ensures r.Success? ==> r.value.Plane? && r.value.base == p.value
  {
    if p.None? then Failure(NullBase)
    else
      var u := Normalize(n, sqrt);
      if Length(u, sqrt) == 0.0 then Failure(ZeroNormal) else Success(Plane(p.value, u))
  }

  /**
   * With an exact square root, Plane.create succeeds exactly for a present base and
   * a non-zero normal, and stores the unit vector in the direction of that normal.
   */
  lemma CreatePlaneValid(p: Option<Point>, n: Vector, sqrt: real -> real)
    requires ExactSqrt(sqrt)
    ensures CreatePlane(p, n, sqrt).Success? <==> p.Some? && Norm2(n) != 0.0
    ensures CreatePlane(p, n, sqrt).Success? ==>
      var s := CreatePlane(p, n, sqrt).value;
      ValidSurface(s) && Cross(s.normal, n) == ZeroVector && 0.0 < Dot(s.normal, n)
  {
    if p.Some? {
      if Norm2(n) != 0.0 {
        NonZeroNormalAccepted(p.value, n, sqrt);
      } else {
        ZeroNormalRejected(p.value, n, sqrt);
      }
    }
  }

  lemma NonZeroNormalAccepted(b: Point, n: Vector, sqrt: real -> real)
    requires ExactSqrt(sqrt) && Norm2(n) != 0.0
    ensures CreatePlane(Some(b), n, sqrt) == Success(Plane(b, Normalize(n, sqrt)))
    ensures Norm2(Normalize(n, sqrt)) == 1.0
    ensures Cross(Normalize(n, sqrt), n) == ZeroVector && 0.0 < Dot(Normalize(n, sqrt), n)
  {
    NormalizeIsUnit(n, sqrt);
    assert Length(Normalize(n, sqrt), sqrt) == sqrt(1.0);
    assert sqrt(1.0) * sqrt(1.0) == 1.0;
  }

  lemma ZeroNormalRejected(b: Point, n: Vector, sqrt: real -> real)
    requires ExactSqrt(sqrt) && Norm2(n) == 0.0
    ensures CreatePlane(Some(b), n, sqrt) == Failure(ZeroNormal)
  {
    assert Length(n, sqrt) == 0.0;
    assert Normalize(n, sqrt) == ZeroVector;
    assert Norm2(ZeroVector) == 0.0;
  }

  /**
   * Plane.create(alpha, beta, gamma): the plane through three points, based at
   * alpha, with the normal (beta - alpha) x (gamma - alpha).
   */
  function CreatePlaneThrough(alpha: Point, beta: Point, gamma: Point, sqrt: real -> real): (r: Result<FrictionSurface, SurfaceError>)
    ensures r.Success? ==> r.value.Plane? && r.value.base == alpha
  {
    CreatePlane(Some(alpha), Cross(CreateSE(alpha, beta), CreateSE(alpha, gamma)), sqrt)
  }

  /**
   * The plane through three points exists exactly when they are not collinear,
   * and then contains all three.
   */
  lemma PlaneThroughContainsPoints(alpha: Point, beta: Point, gamma: Point, sqrt: real -> real)
    requires ExactSqrt(sqrt)
    ensures CreatePlaneThrough(alpha, beta, gamma, sqrt).Success?
        <==> Norm2(Cross(CreateSE(alpha, beta), CreateSE(alpha, gamma))) != 0.0
    ensures CreatePlaneThrough(alpha, beta, gamma, sqrt).Success? ==>
      var s := CreatePlaneThrough(alpha, beta, gamma, sqrt).value;
      ValidSurface(s) && Distance(s, alpha, sqrt) == 0.0 && Distance(s, beta, sqrt) == 0.0 &&
      Distance(s, gamma, sqrt) == 0.0
  {
    var u, v := CreateSE(alpha, beta), CreateSE(alpha, gamma);
    var c := Cross(u, v);
    CreatePlaneValid(Some(alpha), c, sqrt);
    if Norm2(c) != 0.0 {
      var s := CreatePlaneThrough(alpha, beta, gamma, sqrt).value;
      var k := 1.0 / Length(c, sqrt);
      assert s.normal == Scale(c, k);
      CrossIsOrthogonal(u, v);
      DotOfScale(c, k, u);
      DotOfScale(c, k, v);
      assert CreateSE(alpha, alpha) == ZeroVector;
    }
  }

  lemma CrossIsOrthogonal(u: Vector, v: Vector)
    ensures Dot(Cross(u, v), u) == 0.0 && Dot(Cross(u, v), v) == 0.0
  {
  }

  /** Sphere.create: a null centre and a negative radius are rejected; radius 0 is allowed. */
  function CreateSphere(p: Option<Point>, radius: real): (r: Result<FrictionSurface, SurfaceError>)
    ensures r.Success? <==> p.Some? && 0.0 <= radius
    ensures p.None? ==> r == Failure(NullBase)
    ensures r.Success? ==> r.value == Sphere(p.value, radius) && ValidSurface(r.value)
  {
    if p.None? then Failure(NullBase)
    else if radius < 0.0 then Failure(NegativeRadius)
    else Success(Sphere(p.value, radius))
  }

  /**
   * FrictionSurface.distance: the signed distance n . (p - base) from a plane, and
   * the unsigned gap | |p - base| - r | from a sphere.
   */
  function Distance(s: FrictionSurface, p: Point, sqrt: real -> real): (d: real)
    ensures s.Sphere? ==> 0.0 <= d
  {
    match s
    case Plane(base, n) => Dot(n, CreateSE(base, p))
    case Sphere(base, r) => Abs(Length(CreateSE(base, p), sqrt) - r)
  }

  /** FrictionSurface.normal: the plane's own normal, or the direction from the centre to p. */
  function Normal(s: FrictionSurface, p: Point, sqrt: real -> real): Vector
  {
    match s
    case Plane(_, n) => n
    case Sphere(base, _) => Normalize(CreateSE(base, p), sqrt)
  }

  /** FrictionSurface.projection: p moved onto the surface along the normal. */
  function Projection(s: FrictionSurface, p: Point, sqrt: real -> real): Point
  {
    match s
    case Plane(_, n) => Move(p, Scale(n, -Distance(s, p, sqrt)))
    case Sphere(base, r) => Move(base, Scale(Normal(s, p, sqrt), r))
  }

  /** The base point lies on its plane. */
  lemma PlaneContainsBase(b: Point, n: Vector, sqrt: real -> real)
    ensures Distance(Plane(b, n), b, sqrt) == 0.0
  {
    assert CreateSE(b, b) == ZeroVector;
  }

  /** The plane's normal does not depend on the point asked about. */
  lemma PlaneNormalIsConstant(s: FrictionSurface, p: Point, q: Point, sqrt: real -> real)
    requires s.Plane?
    ensures Normal(s, p, sqrt) == Normal(s, q, sqrt) == s.normal
  {
  }

  /**
   * Projecting onto a valid plane lands on the plane, keeps the point's time and
   * fuzziness, and moves it by exactly the absolute distance.
   */
  lemma PlaneProjectionOnPlane(s: FrictionSurface, p: Point, sqrt: real -> real)
    requires ExactSqrt(sqrt) && s.Plane? && ValidSurface(s)
    ensures Distance(s, Projection(s, p, sqrt), sqrt) == 0.0
    ensures Projection(s, p, sqrt).time == p.time && Projection(s, p, sqrt).fuzziness == p.fuzziness
    ensures Length(CreateSE(p, Projection(s, p, sqrt)), sqrt) == Abs(Distance(s, p, sqrt))
  {
    var d := Distance(s, p, sqrt);
    var q := Projection(s, p, sqrt);
    assert CreateSE(s.base, q) == Add(CreateSE(s.base, p), Scale(s.normal, -d));
    DotOfScale(s.normal, -d, s.normal);
    assert CreateSE(p, q) == Scale(s.normal, -d);
    LengthOfScale(s.normal, -d, sqrt);
    UnitLength(s.normal, sqrt);
  }

  /** Projecting an already projected point onto a valid plane changes nothing. */
  lemma PlaneProjectionIdempotent(s: FrictionSurface, p: Point, sqrt: real -> real)
    requires ExactSqrt(sqrt) && s.Plane? && ValidSurface(s)
    ensures Projection(s, Projection(s, p, sqrt), sqrt) == Projection(s, p, sqrt)
  {
    PlaneProjectionOnPlane(s, p, sqrt);
  }

  /** Away from the centre, the sphere's normal is a unit vector pointing outwards. */
  lemma SphereNormalIsUnit(s: FrictionSurface, p: Point, sqrt: real -> real)
    requires ExactSqrt(sqrt) && s.Sphere? && Norm2(CreateSE(s.base, p)) != 0.0
    ensures Norm2(Normal(s, p, sqrt)) == 1.0
    ensures 0.0 < Dot(Normal(s, p, sqrt), CreateSE(s.base, p))
  {
    NormalizeIsUnit(CreateSE(s.base, p), sqrt);
  }

  /**
   * Away from the centre, the projection onto a sphere lies at the radius from the
   * centre, so its distance from the sphere is zero.
   */
  lemma SphereProjectionOnSphere(s: FrictionSurface, p: Point, sqrt: real -> real)
    requires ExactSqrt(sqrt) && s.Sphere? && ValidSurface(s) && Norm2(CreateSE(s.base, p)) != 0.0
    ensures Length(CreateSE(s.base, Projection(s, p, sqrt)), sqrt) == s.radius
    ensures Distance(s, Projection(s, p, sqrt), sqrt) == 0.0
  {
    var u := Normal(s, p, sqrt);
    SphereNormalIsUnit(s, p, sqrt);
    assert CreateSE(s.base, Projection(s, p, sqrt)) == Scale(u, s.radius);
    LengthOfScale(u, s.radius, sqrt);
    UnitLength(u, sqrt);
  }

  /**
   * Away from the centre, the sphere's distance is the length of the step from the
   * point to its projection.
   */
  lemma SphereDistanceIsGap(s: FrictionSurface, p: Point, sqrt: real -> real)
    requires ExactSqrt(sqrt) && s.Sphere? && Norm2(CreateSE(s.base, p)) != 0.0
    ensures Length(CreateSE(p, Projection(s, p, sqrt)), sqrt) == Distance(s, p, sqrt)
  {
    var v := CreateSE(s.base, p);
    var l := Length(v, sqrt);
    Norm2NonNegative(v);
    SqrtPositive(sqrt, Norm2(v));
    var u := Scale(v, 1.0 / l);
    assert Normal(s, p, sqrt) == u;
    NormalizeIsUnit(v, sqrt);
    assert v == Scale(u, l) by {
      assert l * (1.0 / l) == 1.0;
    }
    assert CreateSE(p, Projection(s, p, sqrt)) == Scale(u, s.radius - l);
    LengthOfScale(u, s.radius - l, sqrt);
    UnitLength(u, sqrt);
  }
}
