/**
 * MemoizingEllipticIdentifier: elliptic-arc identification of the sub-curves of a
 * fuzzy spline curve between two search parameters, with the results cached in an
 * n-by-n table. The sub-curve itself is not modelled: what the open recognizer
 * needs of it, the possibilities of its linear, circular and elliptic reference
 * models, is an input.
 */
module EllipticIdentification {
  import opened Numerics
  import opened Recognition
  import OpenRecognition

  /** ResultAsElliptic: whether the curve was recognised as elliptic, and its grade as one. */
  datatype ResultAsElliptic = ResultAsElliptic(isElliptic: bool, grade: real)

  /**
   * The conversion in the static identify: elliptic unless a free curve was
   * recognised; the grade is 1 minus the larger of the closed free curve's grade
   * (0 when it was not graded) and the open free curve's grade.
   */
  function AsElliptic(r: RecognitionResult): (e: ResultAsElliptic)
    requires OPEN_FREE_CURVE in r.grades
    ensures e.isElliptic <==> r.primitive != CLOSED_FREE_CURVE && r.primitive != OPEN_FREE_CURVE
    ensures e.grade <= 1.0 - r.grades[OPEN_FREE_CURVE]
    ensures CLOSED_FREE_CURVE in r.grades ==> e.grade <= 1.0 - r.grades[CLOSED_FREE_CURVE]
    ensures e.grade == 1.0 - r.grades[OPEN_FREE_CURVE]
      || (CLOSED_FREE_CURVE in r.grades && e.grade == 1.0 - r.grades[CLOSED_FREE_CURVE])
      || (CLOSED_FREE_CURVE !in r.grades && e.grade == 1.0)
  {
    var closed := if CLOSED_FREE_CURVE in r.grades then r.grades[CLOSED_FREE_CURVE] else 0.0;
    ResultAsElliptic(
      !(r.primitive == CLOSED_FREE_CURVE || r.primitive == OPEN_FREE_CURVE),
      1.0 - Max(closed, r.grades[OPEN_FREE_CURVE]))
  }

  /** The possibilities of the linear, circular and elliptic reference models of a curve. */
  type Possibilities = (real, real, real)

  /** The static identify(fsc): the open recognizer's result, read as elliptic or not. */
  function IdentifyCurve(p: Possibilities): ResultAsElliptic
  {
    var r := OpenRecognition.Recognize(p.0, p.1, p.2);
    AsElliptic(r)
  }

  /** The largest of the three possibilities. */
  function Best(p: Possibilities): real
  {
    Max(Max(p.0, p.1), p.2)
  }

  /**
   * With the open recognizer, a curve is elliptic exactly when one of its reference
   * models has possibility at least 1/2, and its grade is the best possibility,
   * capped at 1.
   */
  lemma IdentifyCurveIsThreshold(p: Possibilities)
    ensures IdentifyCurve(p).isElliptic <==> Best(p) >= 0.5
    ensures IdentifyCurve(p).grade == Min(Best(p), 1.0)
  {
    var g := OpenRecognition.OpenGrades(p.0, p.1, p.2);
    var t := OpenRecognition.Recognize(p.0, p.1, p.2).primitive;
    var m := Best(p);
    assert g[OPEN_FREE_CURVE] == 1.0 - m;
    if m >= 0.5 {
      var u := if m == p.0 then LINE else if m == p.1 then CIRCULAR_ARC else ELLIPTIC_ARC;
      assert g[u] >= g[OPEN_FREE_CURVE];
      assert PrimitiveOrdinal(u) < PrimitiveOrdinal(OPEN_FREE_CURVE);
      assert t != OPEN_FREE_CURVE;
    } else {
      assert forall u :: u in g && u != OPEN_FREE_CURVE ==> g[u] < g[OPEN_FREE_CURVE];
    }
  }

  /**
   * The identifier over the search parameters ts. subcurve gives the
   * possibilities of the sub-curve between two parameters, identifySubcurve the
   * static identify applied to that sub-curve; table[i, j] caches the result for
   * the sub-curve from ts[i] to ts[j].
   */
  class MemoizingEllipticIdentifier {
    const ts: seq<real>
    const subcurve: (real, real) -> Possibilities
    const identifySubcurve: (real, real) -> ResultAsElliptic
    const table: array2<ResultOrEmpty>

    /** identifySubcurve is the static identify of the sub-curve. */
    ghost predicate Faithful()
    {
      forall a, b :: identifySubcurve(a, b) == IdentifyCurve(subcurve(a, b))
    }

    /** The result for the sub-curve between ts[i] and ts[j]. */
    function Expected(i: int, j: int): ResultAsElliptic
      requires 0 <= i < |ts| && 0 <= j < |ts|
    {
      identifySubcurve(ts[i], ts[j])
    }

    /** Whether the sub-curve between ts[i] and ts[j] is elliptic. */
    predicate Elliptic(i: int, j: int)
      requires 0 <= i < |ts| && 0 <= j < |ts|
    {
      Expected(i, j).isElliptic
    }

    /** The table is n by n and every filled entry holds the result for its pair. */
    ghost predicate Valid()
      reads this, table
    {
      && table.Length0 == |ts| && table.Length1 == |ts|
      && forall i, j :: 0 <= i < |ts| && 0 <= j < |ts| && table[i, j].Cached? ==> table[i, j].result == Expected(i, j)
    }

    /** new MemoizingEllipticIdentifier(ts, fsc): an empty n-by-n table. */
    constructor(ts: seq<real>, subcurve: (real, real) -> Possibilities)
      ensures this.ts == ts && this.subcurve == subcurve && Faithful()
      ensures Valid() && fresh(table)
      ensures forall i, j :: 0 <= i < |ts| && 0 <= j < |ts| ==> table[i, j] == NotCached
    {
      this.ts := ts;
      this.subcurve := subcurve;
      this.identifySubcurve := (a: real, b: real) => IdentifyCurve(subcurve(a, b));
      this.table := new ResultOrEmpty[|ts|, |ts|]((_, _) => NotCached);
    }

    /**
     * identify(i, j): the cached result if there is one; otherwise the result is
     * computed and stored in table[i, j], and nowhere else.
     */
    method Identify(i: int, j: int) returns (r: ResultAsElliptic)
      requires Valid() && 0 <= i < |ts| && 0 <= j < |ts|
      modifies table
      ensures Valid()
      ensures r == Expected(i, j)
      ensures table[i, j] == Cached(r)
      ensures forall i', j' :: 0 <= i' < |ts| && 0 <= j' < |ts| && (i', j') != (i, j) ==> table[i', j'] == old(table[i', j'])
    {
      if table[i, j].NotCached? {
        table[i, j] := Cached(identifySubcurve(ts[i], ts[j]));
      }
      r := table[i, j].result;
    }
  }

  /** A table entry: null, or a cached result. */
  datatype ResultOrEmpty = NotCached | Cached(result: ResultAsElliptic)

  /** The same pair asked twice gives the same result, whatever was asked in between. */
  method IdentifyTwice(id: MemoizingEllipticIdentifier, i: int, j: int, k: int, l: int)
    returns (first: ResultAsElliptic, second: ResultAsElliptic)
    requires id.Valid()
    requires 0 <= i < |id.ts| && 0 <= j < |id.ts| && 0 <= k < |id.ts| && 0 <= l < |id.ts|
    modifies id.table
    ensures first == second
  {
    first := id.Identify(i, j);
    var _ := id.Identify(k, l);
    second := id.Identify(i, j);
  }
}
