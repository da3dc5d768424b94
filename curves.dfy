/**
 * The fuzzy Bezier curve builder the calculators call. Interpolation, the NNLS fit
 * of the fuzziness and curve evaluation live in library code that is not part of
 * this model; they are the two functions of a CurveLibrary value. What the
 * builder itself decides (too few points give no curve; sampling gives num + 1
 * points) is modelled.
 */
module Curves {
  import opened Wrappers
  import opened Geometry

  /** A fitted fuzzy Bezier curve, known by its control points. */
  datatype BezierCurve = BezierCurve(controlPoints: seq<Point>)

  /**
   * The library code: interpolate(points, degree) fits a curve of that degree with
   * fuzzy control points; evaluate(c, i, num) is the i-th of the num + 1 points of
   * c at equal time steps.
   */
  datatype CurveLibrary = CurveLibrary(
    interpolate: (seq<Point>, nat) -> BezierCurve,
    evaluate: (BezierCurve, nat, nat) -> Point)

  /** Curve sampling yields points of non-negative fuzziness (an NNLS fit is non-negative). */
  ghost predicate NonNegativeSamples(lib: CurveLibrary)
  {
    forall c, i, num {:trigger lib.evaluate(c, i, num)} :: 0.0 <= lib.evaluate(c, i, num).fuzziness
  }

  /** FuzzyBezierCurveCreator: the degree and the time span it was made for. */
  datatype CurveCreator = CurveCreator(degree: nat, curveTimeLength: real)

  /** FuzzyBezierCurveCreator.create(curveTimeLength): a cubic creator. */
  function CreatorFor(curveTimeLength: real): (c: CurveCreator)
    ensures c.degree == 3 && c.curveTimeLength == curveTimeLength
  {
    CurveCreator(3, curveTimeLength)
  }

  /** FuzzyBezierCurveCreator.createFBC(points): no curve from at most `degree` points. */
  function CreateFBC(creator: CurveCreator, lib: CurveLibrary, points: seq<Point>): (r: Option<BezierCurve>)
    ensures r.None? <==> |points| <= creator.degree
    ensures r.Some? ==> r.value == lib.interpolate(points, creator.degree)
  {
    if |points| <= creator.degree then None else Some(lib.interpolate(points, creator.degree))
  }

  /** BezierCurve.evaluateAll(num, TIME): num + 1 points from start to end. */
  function EvaluateAll(lib: CurveLibrary, c: BezierCurve, num: nat): (ps: seq<Point>)
    ensures |ps| == num + 1
    ensures forall i :: 0 <= i < |ps| ==> ps[i] == lib.evaluate(c, i, num)
  {
    seq(num + 1, i requires 0 <= i < num + 1 => lib.evaluate(c, i, num))
  }

  /** Every sample of a curve has non-negative fuzziness. */
  lemma EvaluateAllNonNegative(lib: CurveLibrary, c: BezierCurve, num: nat)
    requires NonNegativeSamples(lib)
    ensures forall i :: 0 <= i < |EvaluateAll(lib, c, num)| ==> 0.0 <= EvaluateAll(lib, c, num)[i].fuzziness
  {
  }

  const IntMax: int := 2147483647

  /**
   * (int) (curveTimeLength / timeResolution) for a positive resolution: the
   * quotient truncated, saturated at the largest int.
   */
  function SampleCount(curveTimeLength: real, timeResolution: real): (n: nat)
    requires 0.0 < curveTimeLength && 0.0 < timeResolution
    ensures n <= IntMax
    ensures n < IntMax ==> n as real <= curveTimeLength / timeResolution < n as real + 1.0
  {
    var q := curveTimeLength / timeResolution;
    if q >= IntMax as real then IntMax else q.Floor
  }
}
