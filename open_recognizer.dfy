/**
 * OpenRecognizer: the open-curve identification used by the elliptic-arc
 * segmentation. It grades a line, a circular arc, an elliptic arc and an open free
 * curve from the possibilities of three reference models, and builds those models
 * with clamped rational-Bezier weights. Curve evaluation, plane intersection and
 * the possibility of a model are inputs here.
 */
module OpenRecognition {
  import opened Wrappers
  import opened Numerics
  import opened Recognition

  /** The classes an open curve is graded in, in declaration order. */
  const OpenTypes: seq<PrimitiveType> := [LINE, CIRCULAR_ARC, ELLIPTIC_ARC, OPEN_FREE_CURVE]

  /** The recognizer's parameters: the FMPS point count and the smallest circular weight. */
  datatype OpenRecognizer = OpenRecognizer(fmps: int, minimumWeight: real)

  /** new OpenRecognizer(): 30 FMPS points, minimum weight -0.999. */
  function DefaultRecognizer(): (r: OpenRecognizer)
    ensures r.fmps == 30 && r.minimumWeight == -0.999
    ensures -1.0 < r.minimumWeight < 0.0
  {
    OpenRecognizer(30, -0.999)
  }

  /** The grades of recognize: linear, circular but not linear, elliptic but neither, or none of them. */
  function OpenGrades(pL: real, pC: real, pE: real): (g: map<PrimitiveType, real>)
    ensures g.Keys == set t | t in OpenTypes
    ensures g[LINE] == pL
  {
    map[
      LINE := pL,
      CIRCULAR_ARC := Min(1.0 - pL, pC),
      ELLIPTIC_ARC := Min(Min(1.0 - pL, 1.0 - pC), pE),
      OPEN_FREE_CURVE := Min(Min(1.0 - pL, 1.0 - pC), 1.0 - pE)]
  }

  /** Possibilities in [0, 1] give grades in [0, 1]. */
  lemma OpenGradesInUnitInterval(pL: real, pC: real, pE: real)
    requires 0.0 <= pL <= 1.0 && 0.0 <= pC <= 1.0 && 0.0 <= pE <= 1.0
    ensures forall t :: t in OpenGrades(pL, pC, pE) ==> 0.0 <= OpenGrades(pL, pC, pE)[t] <= 1.0
  {
  }

  /**
   * The classes exclude one another: a class and any class after it never have
   * grades adding up to more than 1.
   */
  lemma OpenGradesExclusive(pL: real, pC: real, pE: real)
    ensures var g := OpenGrades(pL, pC, pE);
      forall i, j :: 0 <= i < j < |OpenTypes| ==> g[OpenTypes[i]] + g[OpenTypes[j]] <= 1.0
  {
  }

  /**
   * The class recognize reports: the first of the grade entries sorted by
   * descending grade. The sort is stable over the enum map's declaration order,
   * so among equal grades the class declared first wins.
   */
  function OpenType(g: map<PrimitiveType, real>): (t: PrimitiveType)
    requires g.Keys == set t | t in OpenTypes
    ensures t in OpenTypes
    ensures forall u :: u in g ==> g[u] <= g[t]
    ensures forall u :: u in g && u != t ==> Precedes(g, PrimitiveOrdinal, t, u)
  {
    assert InOrder(OpenTypes, PrimitiveOrdinal);
    TopIsMaximal(OpenTypes, g, PrimitiveOrdinal);
    Top(OpenTypes, g, PrimitiveOrdinal)
  }

  /**
   * recognize, given the possibilities of the linear, circular and elliptic
   * reference models: a line, an open circular or elliptic arc of unspecified n/4
   * class, or an open free curve.
   */
  function Recognize(pL: real, pC: real, pE: real): (r: RecognitionResult)
    ensures r.grades == OpenGrades(pL, pC, pE)
    ensures r.primitive in OpenTypes
    ensures forall u :: u in r.grades ==> r.grades[u] <= r.grades[r.primitive]
    ensures forall u :: u in r.grades && u != r.primitive ==> Precedes(r.grades, PrimitiveOrdinal, r.primitive, u)
    ensures r.primitive == LINE ==> r.curve == LinearRough(LinearModel)
    ensures r.primitive == CIRCULAR_ARC ==> r.curve == CircularRough(CircularModel, false, GENERAL)
    ensures r.primitive == ELLIPTIC_ARC ==> r.curve == EllipticRough(EllipticModel, false, GENERAL)
    ensures r.primitive == OPEN_FREE_CURVE ==> r.curve == FreeRough(InputCurve, false)
  {
    var g := OpenGrades(pL, pC, pE);
    var t := OpenType(g);
    var curve := match t
      case LINE => LinearRough(LinearModel)
      case CIRCULAR_ARC => CircularRough(CircularModel, false, GENERAL)
      case ELLIPTIC_ARC => EllipticRough(EllipticModel, false, GENERAL)
      case _ => FreeRough(InputCurve, false);
    RecognitionResult(curve, t, g)
  }

  /**
   * A tie is settled by declaration order: with pL = 0.5 and pC = 1 the line and
   * the circular arc both have grade 0.5, and the line is reported.
   */
  lemma TieGoesToLine(pE: real)
    requires 0.0 <= pE <= 1.0
    ensures var r := Recognize(0.5, 1.0, pE);
      r.grades[LINE] == r.grades[CIRCULAR_ARC] == 0.5 && r.primitive == LINE
  {
  }

  /** What recognize can fail with: the null elliptic reference model dereferenced. */
  datatype RecognizeError = NullPointer

  /**
   * recognize with the elliptic reference model taken from the candidate weights:
   * when every candidate weight is NaN, createEllipticReference returns null and
   * asking it for its possibility throws; otherwise the elliptic possibility is
   * that of the first candidate whose model has the highest possibility.
   */
  function RecognizeReferences(pL: real, pC: real, ws: seq<Double>, possibility: real -> real): (r: Result<RecognitionResult, RecognizeError>)
    ensures r.Failure? <==> forall i :: 0 <= i < |ws| ==> !ws[i].Num?
    ensures r.Failure? ==> r.error == NullPointer
    ensures r.Success? ==> exists k :: FirstMaximum(ws, possibility, k) && r.value == Recognize(pL, pC, possibility(ws[k].v))
  {
    BestWeightAbsent(ws, possibility);
    BestWeightIsFirstMaximum(ws, possibility);
    var e := BestWeight(ws, possibility);
    if e.None? then Failure(NullPointer) else Success(Recognize(pL, pC, possibility(e.value)))
  }

  /**
   * createCircularReference's weight (L2 - H2) / (L2 + H2) from the squared
   * half-chord L2 and the squared height H2; the NaN of 0 / 0 becomes 0, and the
   * result is floored at the minimum weight.
   */
  function CircularWeight(l2: real, h2: real, minimumWeight: real): (w: real)
    requires 0.0 <= l2 && 0.0 <= h2
    ensures minimumWeight <= w
    ensures l2 + h2 == 0.0 ==> w == Max(minimumWeight, 0.0)
  {
    var weight := if l2 + h2 == 0.0 then 0.0 else (l2 - h2) / (l2 + h2);
    Max(minimumWeight, weight)
  }

  /** The circular weight lies between the minimum weight and 1 (for a minimum weight in [-1, 1]). */
  lemma CircularWeightRange(l2: real, h2: real, minimumWeight: real)
    requires 0.0 <= l2 && 0.0 <= h2 && -1.0 <= minimumWeight <= 1.0
    ensures minimumWeight <= CircularWeight(l2, h2, minimumWeight) <= 1.0
    ensures h2 == 0.0 && 0.0 < l2 ==> CircularWeight(l2, h2, minimumWeight) == 1.0
  {
    if l2 + h2 != 0.0 {
      var s := l2 + h2;
      var q := (l2 - h2) / s;
      assert q * s == l2 - h2;
      assert 0.0 < s;
      assert q <= 1.0 by {
        assert l2 - h2 <= s;
        assert q * s <= 1.0 * s;
      }
      if h2 == 0.0 {
        assert q * s == s;
        assert q == 1.0;
      }
    }
  }

  /** A double: a number, an infinity, or NaN. */
  datatype Double = Num(v: real) | PositiveInfinity | NegativeInfinity | NaN

  /** The IEEE quotient x / y of two finite doubles (y == 0 as positive zero). */
  function Quotient(x: real, y: real): (q: Double)
    ensures y != 0.0 ==> q == Num(x / y)
    ensures q.NaN? <==> x == 0.0 && y == 0.0
  {
    if y != 0.0 then Num(x / y)
    else if x > 0.0 then PositiveInfinity
    else if x < 0.0 then NegativeInfinity
    else NaN
  }

  /** d - 1 in double arithmetic. */
  function MinusOne(d: Double): Double
  {
    match d
    case Num(v) => Num(v - 1.0)
    case _ => d
  }

  /** Math.min(Math.max(-0.999, w), 0.999), applied only when w is not NaN. */
  function Clamp(w: Double): (c: Double)
    ensures c.NaN? <==> w.NaN?
    ensures c.Num? ==> -0.999 <= c.v <= 0.999
    ensures w.Num? && -0.999 <= w.v <= 0.999 ==> c == w
  {
    match w
    case Num(v) => Num(Min(Max(-0.999, v), 0.999))
    case PositiveInfinity => Num(0.999)
    case NegativeInfinity => Num(-0.999)
    case NaN => NaN
  }

  /** Math.max on doubles: NaN if either is NaN. */
  function MaxDouble(a: Double, b: Double): (m: Double)
    requires a.Num? || a.NaN?
    requires b.Num? || b.NaN?
    ensures m.NaN? <==> a.NaN? || b.NaN?
    ensures m.Num? ==> m.v == Max(a.v, b.v)
  {
    if a.NaN? || b.NaN? then NaN else Num(Max(a.v, b.v))
  }

  /** Where the plane through the i-th aid point meets the line from the chord midpoint to rp1. */
  datatype Aid = Aid(alpha: real, c: real)

  /**
   * The weight a candidate aid point gives: 2 alpha beta d^2 over
   * ((alpha + beta) c)^2 - (alpha d)^2, minus 1, clamped unless NaN.
   */
  function CandidateWeight(alphaPlusBeta: real, d: real, aid: Aid): (w: Double)
    ensures w.Num? || w.NaN?
  {
    var d2 := d * d;
    var beta := alphaPlusBeta - aid.alpha;
    var numerator := 2.0 * aid.alpha * beta * d2;
    var denominator := alphaPlusBeta * alphaPlusBeta * aid.c * aid.c - aid.alpha * aid.alpha * d2;
    Clamp(MinusOne(Quotient(numerator, denominator)))
  }

  /** weights[i] of calculateBestWeight: 0 unless alpha + beta and |normal2| are positive and the plane meets the line. */
  function WeightAt(alphaPlusBeta: real, d: real, normal2Length: real, aids: seq<Option<Aid>>, i: nat): (w: Double)
    requires i < |aids|
    ensures w.Num? || w.NaN?
    ensures w.Num? ==> -0.999 <= w.v <= 0.999
  {
    if 0.0 < alphaPlusBeta && 0.0 < normal2Length && aids[i].Some? then CandidateWeight(alphaPlusBeta, d, aids[i].value)
    else Num(0.0)
  }

  /**
   * calculateBestWeight from the distance alpha + beta of rp1 from the chord
   * midpoint, the half-chord d, the length of normal2, and the intersection of each
   * of the four aid planes (None: no intersection).
   */
  method CalculateBestWeight(alphaPlusBeta: real, d: real, normal2Length: real, aids: seq<Option<Aid>>)
    returns (r: seq<Double>)
    requires |aids| == 4
    ensures |r| == 3
    ensures r[0] == WeightAt(alphaPlusBeta, d, normal2Length, aids, 1)
    ensures r[1] == WeightAt(alphaPlusBeta, d, normal2Length, aids, 2)
    ensures r[2] == MaxDouble(WeightAt(alphaPlusBeta, d, normal2Length, aids, 0), WeightAt(alphaPlusBeta, d, normal2Length, aids, 3))
    ensures forall i :: 0 <= i < 3 ==> r[i].NaN? || (r[i].Num? && -0.999 <= r[i].v <= 0.999)
  {
    var weights := new Double[4](_ => Num(0.0));
    if 0.0 < alphaPlusBeta && 0.0 < normal2Length {
      var i := 0;
      while i < 4
        invariant 0 <= i <= 4
        invariant forall k :: 0 <= k < i ==> weights[k] == WeightAt(alphaPlusBeta, d, normal2Length, aids, k)
        invariant forall k :: i <= k < 4 ==> weights[k] == Num(0.0)
      {
        if aids[i].None? {
          i := i + 1;
          continue;
        }
        weights[i] := CandidateWeight(alphaPlusBeta, d, aids[i].value);
        i := i + 1;
      }
    }
    r := [weights[1], weights[2], MaxDouble(weights[0], weights[3])];
  }

  /**
   * The weight createEllipticReference keeps: scanning in order and skipping NaN,
   * a weight replaces the best so far when its model's possibility is strictly higher.
   */
  function BestWeight(ws: seq<Double>, possibility: real -> real): (b: Option<real>)
  {
    if |ws| == 0 then None
    else
      var b := BestWeight(ws[..|ws| - 1], possibility);
      var w := ws[|ws| - 1];
      if !w.Num? then b
      else if b.None? || possibility(w.v) > possibility(b.value) then Some(w.v)
      else b
  }

  /** The kept weight is absent exactly when no weight is a number. */
  lemma {:induction false} BestWeightAbsent(ws: seq<Double>, possibility: real -> real)
    ensures BestWeight(ws, possibility).None? <==> forall i :: 0 <= i < |ws| ==> !ws[i].Num?
  {
    if |ws| > 0 {
      var init := ws[..|ws| - 1];
      BestWeightAbsent(init, possibility);
      assert forall i :: 0 <= i < |init| ==> init[i] == ws[i];
    }
  }

  /**
   * ws[k] is a number whose model has the highest possibility among the numbers
   * of ws, and strictly higher than every number before it.
   */
  predicate FirstMaximum(ws: seq<Double>, possibility: real -> real, k: int)
  {
    && 0 <= k < |ws| && ws[k].Num?
    && (forall i :: 0 <= i < |ws| && ws[i].Num? ==> possibility(ws[i].v) <= possibility(ws[k].v))
    && (forall i :: 0 <= i < k && ws[i].Num? ==> possibility(ws[i].v) < possibility(ws[k].v))
  }

  /** The kept weight, when there is one, is the first weight whose model has the highest possibility. */
  lemma {:induction false} BestWeightIsFirstMaximum(ws: seq<Double>, possibility: real -> real)
    ensures BestWeight(ws, possibility).Some? ==>
      exists k :: FirstMaximum(ws, possibility, k) && ws[k] == Num(BestWeight(ws, possibility).value)
  {
    if |ws| > 0 {
      var init := ws[..|ws| - 1];
      BestWeightIsFirstMaximum(init, possibility);
      var b := BestWeight(init, possibility);
      var w := ws[|ws| - 1];
      assert forall i :: 0 <= i < |init| ==> init[i] == ws[i];
      if w.Num? && (b.None? || possibility(w.v) > possibility(b.value)) {
        if b.Some? {
          var k' :| FirstMaximum(init, possibility, k') && init[k'] == Num(b.value);
        } else {
          BestWeightAbsent(init, possibility);
        }
        assert FirstMaximum(ws, possibility, |ws| - 1);
      } else if b.Some? {
        var k :| FirstMaximum(init, possibility, k) && init[k] == Num(b.value);
        assert FirstMaximum(ws, possibility, k);
      }
    }
  }

  /**
   * createEllipticReference's loop over the candidate weights: the weight of the
   * elliptic reference model, or None (null) when every weight is NaN.
   */
  method CreateEllipticReference(ws: seq<Double>, possibility: real -> real) returns (best: Option<real>)
    ensures best == BestWeight(ws, possibility)
  {
    best := None;
    var maxPos: Option<real> := None;
    var i := 0;
    while i < |ws|
      invariant 0 <= i <= |ws|
      invariant best == BestWeight(ws[..i], possibility)
      invariant maxPos.Some? <==> best.Some?
      invariant best.Some? ==> maxPos.value == possibility(best.value)
    {
      assert ws[..i + 1][..i] == ws[..i];
      var w := ws[i];
      if !w.Num? {
        i := i + 1;
        continue;
      }
      var pos := possibility(w.v);
      if maxPos.None? || pos > maxPos.value {
        best := Some(w.v);
        maxPos := Some(pos);
      }
      i := i + 1;
    }
    assert ws[..|ws|] == ws;
  }

  /**
   * The last step of getBisectingPoint, given the area before the parallelogram
   * that holds the bisecting point, the area after it, and its own area: no
   * division (the mid point) for an empty parallelogram, else the two ratios of
   * the internal division.
   */
  function BisectingRatio(areaBefore: real, areaAfter: real, sum: real): (r: Option<(real, real)>)
    ensures r.None? <==> sum == 0.0
    ensures r.Some? ==> r.value.0 + r.value.1 == 1.0
  {
    if sum == 0.0 then None
    else
      var ratioA := (areaAfter - areaBefore + sum) / (2.0 * sum);
      Some((ratioA, 1.0 - ratioA))
  }

  /** The ratios split the parallelogram so that the areas on both sides are equal. */
  lemma BisectingRatioBalances(areaBefore: real, areaAfter: real, sum: real)
    requires sum != 0.0
    ensures var r := BisectingRatio(areaBefore, areaAfter, sum).value;
      areaBefore + r.0 * sum == areaAfter + r.1 * sum
  {
    var ratioA := (areaAfter - areaBefore + sum) / (2.0 * sum);
    assert ratioA * (2.0 * sum) == areaAfter - areaBefore + sum;
  }
}
