/**
 * The vocabulary shared by the recognizers and the segmentation: the curve
 * classes, the n/4 sub-classes of arcs, a recognition result, the fuzzy AND,
 * and the ranking of classes by grade (higher grade first, ties to the class
 * declared first).
 */
module Recognition {
  import opened Numerics

  /** The curve classes, in declaration order. */
  datatype PrimitiveType =
    | POINT | LINE | CIRCLE | CIRCULAR_ARC | ELLIPSE | ELLIPTIC_ARC | CLOSED_FREE_CURVE | OPEN_FREE_CURVE

  /** The n/4 sub-classes of an arc, in declaration order. */
  datatype NQuartersType = QUARTER | HALF | THREE_QUARTERS | GENERAL

  /** Enum.ordinal() of a curve class. */
  function PrimitiveOrdinal(t: PrimitiveType): (o: int)
    ensures 0 <= o < 8
  {
    match t
    case POINT => 0
    case LINE => 1
    case CIRCLE => 2
    case CIRCULAR_ARC => 3
    case ELLIPSE => 4
    case ELLIPTIC_ARC => 5
    case CLOSED_FREE_CURVE => 6
    case OPEN_FREE_CURVE => 7
  }

  /** Enum.ordinal() of an n/4 sub-class. */
  function NQuartersOrdinal(t: NQuartersType): (o: int)
    ensures 0 <= o < 4
  {
    match t
    case QUARTER => 0
    case HALF => 1
    case THREE_QUARTERS => 2
    case GENERAL => 3
  }

  /** Where the rough curve of a result comes from; the curves themselves are not modelled. */
  datatype CurveSource = LinearModel | CircularModel | EllipticModel | ReductionModel(nq: NQuartersType) | InputCurve

  datatype RoughCurve =
    | LinearRough(source: CurveSource)
    | CircularRough(source: CurveSource, closed: bool, nq: NQuartersType)
    | EllipticRough(source: CurveSource, closed: bool, nq: NQuartersType)
    | FreeRough(source: CurveSource, closed: bool)

  /** RecognitionResult: the rough curve, the recognised class and the grade of every class considered. */
  datatype RecognitionResult = RecognitionResult(curve: RoughCurve, primitive: PrimitiveType, grades: map<PrimitiveType, real>)

  /** and(a, b) */
  function And2(a: real, b: real): (r: real)
    ensures r <= a && r <= b && (r == a || r == b)
  {
    Min(a, b)
  }

  /** and(a, b, c) */
  function And3(a: real, b: real, c: real): (r: real)
    ensures r <= a && r <= b && r <= c && (r == a || r == b || r == c)
  {
    Min(Min(a, b), c)
  }

  /** and(a, b, c, d) */
  function And4(a: real, b: real, c: real, d: real): (r: real)
    ensures r <= a && r <= b && r <= c && r <= d && (r == a || r == b || r == c || r == d)
  {
    Min(Min(a, b), Min(c, d))
  }

  /** a ranks before b: a higher grade, or the same grade and declared earlier. */
  predicate Precedes<T>(grades: map<T, real>, ord: T -> int, a: T, b: T)
    requires a in grades && b in grades
  {
    grades[a] > grades[b] || (grades[a] == grades[b] && ord(a) < ord(b))
  }

  /** The comparator of the sorted class lists: negative when a ranks first. */
  function Compare<T>(grades: map<T, real>, ord: T -> int, a: T, b: T): (c: int)
    requires a in grades && b in grades
    ensures c < 0 <==> Precedes(grades, ord, a, b)
    ensures c == 0 <==> grades[a] == grades[b] && ord(a) == ord(b)
  {
    if grades[a] < grades[b] then 1
    else if grades[a] == grades[b] then ord(a) - ord(b)
    else -1
  }

  /** The comparator is antisymmetric. */
  lemma CompareAntisymmetric<T>(grades: map<T, real>, ord: T -> int, a: T, b: T)
    requires a in grades && b in grades
    ensures Compare(grades, ord, a, b) < 0 <==> Compare(grades, ord, b, a) > 0
  {
  }

  /** The ranking is transitive. */
  lemma PrecedesTransitive<T>(grades: map<T, real>, ord: T -> int, a: T, b: T, c: T)
    requires a in grades && b in grades && c in grades
    requires Precedes(grades, ord, a, b) && Precedes(grades, ord, b, c)
    ensures Precedes(grades, ord, a, c)
  {
  }

  /** The classes are listed in declaration order, each once. */
  predicate InOrder<T>(cs: seq<T>, ord: T -> int)
  {
    forall i, j :: 0 <= i < j < |cs| ==> ord(cs[i]) < ord(cs[j])
  }

  /**
   * The first class of the list sorted by the comparator (equally, of the entries
   * sorted by descending grade with a stable sort): it ranks before every other.
   */
  function Top<T(==,!new)>(cs: seq<T>, grades: map<T, real>, ord: T -> int): (t: T)
    requires 0 < |cs| && InOrder(cs, ord) && forall c :: c in cs ==> c in grades
    ensures t in cs
    ensures forall c :: c in cs && c != t ==> Precedes(grades, ord, t, c)
  {
    if |cs| == 1 then cs[0]
    else
      var rest := Top(cs[1..], grades, ord);
      assert forall c :: c in cs <==> c == cs[0] || c in cs[1..];
      assert ord(cs[0]) < ord(rest);
      if grades[cs[0]] >= grades[rest] then cs[0] else rest
  }

  /** The top class has the highest grade. */
  lemma TopIsMaximal<T(!new)>(cs: seq<T>, grades: map<T, real>, ord: T -> int)
    requires 0 < |cs| && InOrder(cs, ord) && forall c :: c in cs ==> c in grades
    ensures forall c :: c in cs ==> grades[c] <= grades[Top(cs, grades, ord)]
  {
  }

  /** The list with x removed. */
  function Without<T(==,!new)>(cs: seq<T>, x: T): (r: seq<T>)
    ensures forall c :: c in r <==> c in cs && c != x
    ensures |r| <= |cs| && (x in cs ==> |r| < |cs|)
  {
    if |cs| == 0 then []
    else
      assert forall c :: c in cs <==> c == cs[0] || c in cs[1..];
      if cs[0] == x then Without(cs[1..], x)
      else [cs[0]] + Without(cs[1..], x)
  }

  /** Removing a class keeps the declaration order. */
  lemma {:induction false} WithoutInOrder<T(!new)>(cs: seq<T>, x: T, ord: T -> int)
    requires InOrder(cs, ord)
    ensures InOrder(Without(cs, x), ord)
  {
    if |cs| > 0 {
      var tail := cs[1..];
      assert InOrder(tail, ord);
      WithoutInOrder(tail, x, ord);
      var rest := Without(tail, x);
      if cs[0] != x {
        var r := [cs[0]] + rest;
        forall i, j | 0 <= i < j < |r| ensures ord(r[i]) < ord(r[j]) {
          if i == 0 {
            assert r[j] == rest[j - 1] && rest[j - 1] in tail;
            var k :| 0 <= k < |tail| && tail[k] == r[j];
            assert tail[k] == cs[k + 1];
          } else {
            assert r[i] == rest[i - 1] && r[j] == rest[j - 1];
          }
        }
      }
    }
  }
}
