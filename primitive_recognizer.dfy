/**
 * PrimitiveCurveRecognizer: the fuzzy grades of the seven curve classes from the
 * linearity, circularity, ellipticity and closedness possibilities, the choice of
 * the top-ranked class, and the refinement of an arc into its n/4 sub-class.
 * The reference models and their possibilities are inputs here.
 */
module PrimitiveRecognizer {
  import opened Wrappers
  import opened FuzzyValues
  import opened Recognition

  /** The classes calculate7CurveGrade grades, in declaration order (POINT is not among them). */
  const SevenTypes: seq<PrimitiveType> :=
    [LINE, CIRCLE, CIRCULAR_ARC, ELLIPSE, ELLIPTIC_ARC, CLOSED_FREE_CURVE, OPEN_FREE_CURVE]

  const NQuartersTypes: seq<NQuartersType> := [QUARTER, HALF, THREE_QUARTERS, GENERAL]

  /**
   * calculate7CurveGrade(l, c, e, cl): a line is graded by l; every other class needs
   * "not a line" and the circularity (circles) or "not circular" with the ellipticity
   * (ellipses) or neither (free curves), and closedness or its negation.
   */
  function Calculate7CurveGrade(l: real, c: real, e: real, cl: real): (g: map<PrimitiveType, real>)
    ensures g.Keys == set t | t in SevenTypes
    ensures g[LINE] == l
  {
    map[
      LINE := l,
      CIRCLE := And3(1.0 - l, c, cl),
      CIRCULAR_ARC := And3(1.0 - l, c, 1.0 - cl),
      ELLIPSE := And4(1.0 - l, 1.0 - c, e, cl),
      ELLIPTIC_ARC := And4(1.0 - l, 1.0 - c, e, 1.0 - cl),
      CLOSED_FREE_CURVE := And4(1.0 - l, 1.0 - c, 1.0 - e, cl),
      OPEN_FREE_CURVE := And4(1.0 - l, 1.0 - c, 1.0 - e, 1.0 - cl)]
  }

  /** Whatever is not a line is graded at most 1 - l. */
  lemma NonLinearGradesBelowNotLine(l: real, c: real, e: real, cl: real)
    ensures forall t :: t in Calculate7CurveGrade(l, c, e, cl) && t != LINE ==> Calculate7CurveGrade(l, c, e, cl)[t] <= 1.0 - l
  {
  }

  /** Each closed class, graded with 1 - cl in place of cl, is graded as its open counterpart. */
  lemma ClosedOpenPairs(l: real, c: real, e: real, cl: real)
    ensures var g, h := Calculate7CurveGrade(l, c, e, cl), Calculate7CurveGrade(l, c, e, 1.0 - cl);
      && h[CIRCLE] == g[CIRCULAR_ARC]
      && h[ELLIPSE] == g[ELLIPTIC_ARC]
      && h[CLOSED_FREE_CURVE] == g[OPEN_FREE_CURVE]
  {
    assert 1.0 - (1.0 - cl) == cl;
  }

  /** Possibilities in [0, 1] give grades in [0, 1]. */
  lemma SevenGradesInUnitInterval(l: real, c: real, e: real, cl: real)
    requires 0.0 <= l <= 1.0 && 0.0 <= c <= 1.0 && 0.0 <= e <= 1.0 && 0.0 <= cl <= 1.0
    ensures forall t :: t in Calculate7CurveGrade(l, c, e, cl) ==> 0.0 <= Calculate7CurveGrade(l, c, e, cl)[t] <= 1.0
  {
  }

  /** The seven classes are listed in declaration order. */
  lemma SevenTypesInOrder()
    ensures InOrder(SevenTypes, PrimitiveOrdinal)
  {
  }

  /**
   * The class recognize picks: the first of the entries sorted by descending grade,
   * or the second one when the first is POINT.
   */
  function SelectType(grades: map<PrimitiveType, real>): (t: PrimitiveType)
    requires grades.Keys == set t | t in SevenTypes
  {
    SevenTypesInOrder();
    var top := Top(SevenTypes, grades, PrimitiveOrdinal);
    if top == POINT then
      WithoutInOrder(SevenTypes, top, PrimitiveOrdinal);
      Top(Without(SevenTypes, top), grades, PrimitiveOrdinal)
    else top
  }

  /**
   * The POINT fallback is never taken: the selected class is not POINT, no class
   * has a higher grade, and it ranks before every other class (ties go to the
   * class declared first).
   */
  lemma SelectedIsTop(grades: map<PrimitiveType, real>)
    requires grades.Keys == set t | t in SevenTypes
    ensures SelectType(grades) in SevenTypes && SelectType(grades) != POINT
    ensures forall t :: t in grades ==> grades[t] <= grades[SelectType(grades)]
    ensures forall t :: t in grades && t != SelectType(grades) ==> Precedes(grades, PrimitiveOrdinal, SelectType(grades), t)
  {
    SevenTypesInOrder();
    var top := Top(SevenTypes, grades, PrimitiveOrdinal);
    assert POINT !in SevenTypes;
    assert SelectType(grades) == top;
    TopIsMaximal(SevenTypes, grades, PrimitiveOrdinal);
  }

  /** The n/4 classes of the reference models (their curves are not modelled). */
  datatype ReferenceModels = ReferenceModels(circularNQuarters: NQuartersType, ellipticNQuarters: NQuartersType)

  /** The switch of recognize: the rough curve built for the selected class. */
  function InitialResult(t: PrimitiveType, grades: map<PrimitiveType, real>, refs: ReferenceModels): (r: RecognitionResult)
    ensures r.primitive == t && r.grades == grades
  {
    var curve := match t
      case POINT | LINE => LinearRough(LinearModel)
      case CIRCLE | CIRCULAR_ARC => CircularRough(CircularModel, t == CIRCLE, refs.circularNQuarters)
      case ELLIPSE | ELLIPTIC_ARC => EllipticRough(EllipticModel, t == ELLIPSE, refs.ellipticNQuarters)
      case CLOSED_FREE_CURVE | OPEN_FREE_CURVE => FreeRough(InputCurve, t == CLOSED_FREE_CURVE);
    RecognitionResult(curve, t, grades)
  }

  /** The Sigmoid rules calculateSubcurveGrade applies (their shapes are inputs). */
  datatype SubcurveRules = SubcurveRules(
    quarterQ: real -> real, halfH: real -> real, threeQuartersT: real -> real,
    generalQ: real -> real, generalH: real -> real, generalT: real -> real)

  /**
   * calculateSubcurveGrade: each n/4 class by its rule on the possibility of its model;
   * GENERAL by the AND of the general rules on the three necessities.
   */
  function CalculateSubcurveGrade(q: TruthValue, h: TruthValue, t: TruthValue, rules: SubcurveRules): (g: map<NQuartersType, real>)
    ensures g.Keys == set n | n in NQuartersTypes
    ensures g[QUARTER] == rules.quarterQ(q.possibility)
    ensures g[HALF] == rules.halfH(h.possibility)
    ensures g[THREE_QUARTERS] == rules.threeQuartersT(t.possibility)
  {
    map[
      QUARTER := rules.quarterQ(q.possibility),
      HALF := rules.halfH(h.possibility),
      THREE_QUARTERS := rules.threeQuartersT(t.possibility),
      GENERAL := And3(rules.generalQ(q.necessity), rules.generalH(h.necessity), rules.generalT(t.necessity))]
  }

  /** The GENERAL grade is the smallest of the three general rule outputs, and is one of them. */
  lemma GeneralIsMinimum(q: TruthValue, h: TruthValue, t: TruthValue, rules: SubcurveRules)
    ensures var gen := CalculateSubcurveGrade(q, h, t, rules)[GENERAL];
      && gen <= rules.generalQ(q.necessity) && gen <= rules.generalH(h.necessity) && gen <= rules.generalT(t.necessity)
      && (gen == rules.generalQ(q.necessity) || gen == rules.generalH(h.necessity) || gen == rules.generalT(t.necessity))
  {
  }

  /** The n/4 classes are listed in declaration order. */
  lemma NQuartersInOrder()
    ensures InOrder(NQuartersTypes, NQuartersOrdinal)
  {
  }

  /** The first n/4 class of getSortedNQuartersTypeList. */
  function BestNQuarters(g: map<NQuartersType, real>): NQuartersType
    requires g.Keys == set n | n in NQuartersTypes
  {
    NQuartersInOrder();
    Top(NQuartersTypes, g, NQuartersOrdinal)
  }

  /** No n/4 class has a higher grade than the first one. */
  lemma BestIsMaximal(g: map<NQuartersType, real>)
    requires g.Keys == set n | n in NQuartersTypes
    ensures forall n :: n in g ==> g[n] <= g[BestNQuarters(g)]
  {
    NQuartersInOrder();
    TopIsMaximal(NQuartersTypes, g, NQuartersOrdinal);
  }

  /**
   * recognizeNQuartersType: lines, circles, ellipses and free curves come back
   * unchanged; an arc keeps its result when GENERAL ranks first and otherwise gets
   * the rough curve of the winning n/4 model with its grade list kept; POINT gives
   * no result (null).
   */
  function RecognizeNQuartersType(r: RecognitionResult, q: TruthValue, h: TruthValue, t: TruthValue, rules: SubcurveRules): (res: Option<RecognitionResult>)
    ensures res.None? <==> r.primitive == POINT
    ensures r.primitive != POINT && r.primitive != CIRCULAR_ARC && r.primitive != ELLIPTIC_ARC ==> res == Some(r)
    ensures res.Some? ==> res.value.primitive == r.primitive && res.value.grades == r.grades
  {
    match r.primitive
    case LINE | CIRCLE | ELLIPSE | OPEN_FREE_CURVE | CLOSED_FREE_CURVE => Some(r)
    case CIRCULAR_ARC | ELLIPTIC_ARC =>
      var best := BestNQuarters(CalculateSubcurveGrade(q, h, t, rules));
      if best == GENERAL then Some(r)
      else if r.primitive == CIRCULAR_ARC then
        Some(RecognitionResult(CircularRough(ReductionModel(best), false, best), CIRCULAR_ARC, r.grades))
      else
        Some(RecognitionResult(EllipticRough(ReductionModel(best), false, best), ELLIPTIC_ARC, r.grades))
    case POINT => None
  }

  /** An arc is refined to exactly the n/4 class that ranks first, unless that is GENERAL. */
  lemma ArcRefinement(r: RecognitionResult, q: TruthValue, h: TruthValue, t: TruthValue, rules: SubcurveRules)
    requires r.primitive == CIRCULAR_ARC || r.primitive == ELLIPTIC_ARC
    ensures var g := CalculateSubcurveGrade(q, h, t, rules);
      var best := BestNQuarters(g);
      && (best == GENERAL ==> RecognizeNQuartersType(r, q, h, t, rules) == Some(r))
      && (best != GENERAL && r.primitive == CIRCULAR_ARC ==>
            RecognizeNQuartersType(r, q, h, t, rules).value.curve == CircularRough(ReductionModel(best), false, best))
      && (best != GENERAL && r.primitive == ELLIPTIC_ARC ==>
            RecognizeNQuartersType(r, q, h, t, rules).value.curve == EllipticRough(ReductionModel(best), false, best))
  {
  }

  /**
   * recognize, given the possibilities of the reference models (pL, pC, pE), the
   * closedness possibility pCl, the n/4 classes of the reference models, and the
   * truth values of the reduction models of each arc class.
   */
  function Recognize(pL: real, pC: real, pE: real, pCl: real, refs: ReferenceModels,
                     reductions: PrimitiveType -> (TruthValue, TruthValue, TruthValue),
                     rules: SubcurveRules): (res: Option<RecognitionResult>)
  {
    var grades := Calculate7CurveGrade(pL, pC, pE, pCl);
    var t := SelectType(grades);
    var tv := reductions(t);
    RecognizeNQuartersType(InitialResult(t, grades, refs), tv.0, tv.1, tv.2, rules)
  }

  /** recognize always gives a result, of the selected (top-ranked, never POINT) class, with the seven grades. */
  lemma RecognizeResult(pL: real, pC: real, pE: real, pCl: real, refs: ReferenceModels,
                        reductions: PrimitiveType -> (TruthValue, TruthValue, TruthValue), rules: SubcurveRules)
    ensures var res := Recognize(pL, pC, pE, pCl, refs, reductions, rules);
      var g := Calculate7CurveGrade(pL, pC, pE, pCl);
      && res.Some?
      && res.value.primitive == SelectType(g) && res.value.primitive != POINT
      && (forall t :: t in g ==> g[t] <= g[res.value.primitive])
      && res.value.grades == g
  {
    var g := Calculate7CurveGrade(pL, pC, pE, pCl);
    SelectedIsTop(g);
    var t := SelectType(g);
    var tv := reductions(t);
    var r0 := InitialResult(t, g, refs);
    assert r0.primitive != POINT;
    assert Recognize(pL, pC, pE, pCl, refs, reductions, rules) == RecognizeNQuartersType(r0, tv.0, tv.1, tv.2, rules);
  }
}
