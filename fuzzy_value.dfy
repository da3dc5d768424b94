/**
 * Symmetric triangular fuzzy numbers (a vertex and a fuzziness, the half-width of
 * the support) and the necessity / possibility with which one is included in
 * another.
 */
module FuzzyValues {
  import opened Numerics

  /** A fuzziness: a real or positive infinity (the only non-finite value the code tests for). */
  datatype Spread = Finite(r: real) | Infinite

  datatype FuzzyValue = FuzzyValue(vertex: real, fuzziness: Spread)

  datatype TruthValue = TruthValue(necessity: real, possibility: real)

  predicate NonNegative(f: Spread)
  {
    f.Infinite? || 0.0 <= f.r
  }

  /** A fuzzy value with a finite fuzziness (FuzzyValue.create(v, f)). */
  function Create(v: real, f: real): (fv: FuzzyValue)
    ensures fv.vertex == v && fv.fuzziness.Finite? && fv.fuzziness.r == f
  {
    FuzzyValue(v, Finite(f))
  }

  /**
   * FuzzyValue.equals: vertex and fuzziness are both equal.
   */
  predicate Equals(a: FuzzyValue, b: FuzzyValue)
    ensures Equals(a, b) <==> a == b
  {
    a.vertex == b.vertex && a.fuzziness == b.fuzziness
  }

  /**
   * FuzzyValue.includedIn: the necessity and possibility that `a` is included in `other`.
   * With d the distance of the vertices and sum the sum of the fuzzinesses:
   * an infinite sum gives (0, 1); otherwise the necessity is max((f_other - d) / sum, 0)
   * and the possibility max((sum - d) / sum, 0). A zero sum makes both quotients -d / 0,
   * that is -infinity (clamped to 0) when d > 0 and NaN when d == 0, the case that
   * is answered with (0.5, 1).
   */
  function IncludedIn(a: FuzzyValue, other: FuzzyValue): (t: TruthValue)
    requires NonNegative(a.fuzziness) && NonNegative(other.fuzziness)
    ensures 0.0 <= t.necessity <= t.possibility <= 1.0
  {
    var d := Abs(other.vertex - a.vertex);
    if a.fuzziness.Infinite? || other.fuzziness.Infinite? then
      TruthValue(0.0, 1.0)
    else
      var sum := a.fuzziness.r + other.fuzziness.r;
      if sum == 0.0 then
        if d == 0.0 then TruthValue(0.5, 1.0) else TruthValue(0.0, 0.0)
      else
        QuotientOrder(other.fuzziness.r - d, sum - d, sum);
        TruthValue(Max((other.fuzziness.r - d) / sum, 0.0), Max((sum - d) / sum, 0.0))
  }

  /** For a positive denominator: a <= b <= s gives a/s <= b/s <= 1. */
  lemma QuotientOrder(a: real, b: real, s: real)
    requires 0.0 < s && a <= b <= s
    ensures a / s <= b / s <= 1.0
  {
    assert b / s - a / s == (b - a) / s;
    assert s / s == 1.0;
    assert s / s - b / s == (s - b) / s;
  }

  /** An infinite fuzziness on either side gives necessity 0 and possibility 1. */
  lemma IncludedInInfinite(a: FuzzyValue, other: FuzzyValue)
    requires NonNegative(a.fuzziness) && NonNegative(other.fuzziness)
    requires a.fuzziness.Infinite? || other.fuzziness.Infinite?
    ensures IncludedIn(a, other) == TruthValue(0.0, 1.0)
  {
  }

  /** Two crisp values: (0.5, 1) when they coincide (the 0/0 case), (0, 0) otherwise. */
  lemma IncludedInCrisp(a: FuzzyValue, other: FuzzyValue)
    requires a.fuzziness == Finite(0.0) && other.fuzziness == Finite(0.0)
    ensures a.vertex == other.vertex ==> IncludedIn(a, other) == TruthValue(0.5, 1.0)
    ensures a.vertex != other.vertex ==> IncludedIn(a, other) == TruthValue(0.0, 0.0)
  {
  }

  /** A value with a positive fuzziness is included in itself with (0.5, 1). */
  lemma IncludedInItself(a: FuzzyValue)
    requires a.fuzziness.Finite? && 0.0 < a.fuzziness.r
    ensures IncludedIn(a, a) == TruthValue(0.5, 1.0)
  {
    var f := a.fuzziness.r;
    assert f / (f + f) == 0.5;
  }

  /** The possibility does not depend on the order of the arguments. */
  lemma PossibilitySymmetric(a: FuzzyValue, b: FuzzyValue)
    requires NonNegative(a.fuzziness) && NonNegative(b.fuzziness)
    ensures IncludedIn(a, b).possibility == IncludedIn(b, a).possibility
  {
    assert Abs(b.vertex - a.vertex) == Abs(a.vertex - b.vertex);
  }

  /** The necessity does: a crisp value lies surely inside a fuzzy one, not the other way round. */
  lemma NecessityNotSymmetric()
    ensures IncludedIn(Create(0.0, 0.0), Create(0.0, 1.0)).necessity == 1.0
    ensures IncludedIn(Create(0.0, 1.0), Create(0.0, 0.0)).necessity == 0.0
  {
  }

  /*
   * The closed forms above agree with the usual definitions on membership
   * functions: for two fuzzy values with positive fuzziness, the possibility is the
   * height of the intersection of their triangles, sup_x min(mu_a(x), mu_b(x)), and the
   * necessity is inf_x max(1 - mu_a(x), mu_b(x)). The lemmas below prove both: a bound
   * that holds at every x and a point at which the bound is reached.
   */

  /** The membership grade of x in the triangle with vertex v and half-width f. */
  function Membership(v: real, f: real, x: real): (m: real)
    requires 0.0 < f
    ensures 0.0 <= m <= 1.0
    ensures m == 1.0 <==> x == v
  {
    DivNonNegative(Abs(x - v), f);
    Max(1.0 - Abs(x - v) / f, 0.0)
  }

  predicate PositiveFinite(a: FuzzyValue)
  {
    a.fuzziness.Finite? && 0.0 < a.fuzziness.r
  }

  function Mu(a: FuzzyValue, x: real): real
    requires PositiveFinite(a)
  {
    Membership(a.vertex, a.fuzziness.r, x)
  }

  lemma DivNonNegative(p: real, f: real)
    requires 0.0 < f
    ensures 0.0 <= p ==> 0.0 <= p / f
    ensures p / f == 0.0 <==> p == 0.0
  {
    assert p / f * f == p;
  }

  /** For a positive divisor, p / f <= k exactly when p <= k * f. */
  lemma DivLeIff(p: real, f: real, k: real)
    requires 0.0 < f
    ensures p / f <= k <==> p <= k * f
    ensures p / f < k <==> p < k * f
  {
    assert p / f * f == p;
    if p / f <= k {
      assert (p / f) * f <= k * f;
    }
    if p / f < k {
      assert (p / f) * f < k * f;
    }
  }

  lemma AbsOfScaled(c: real, k: real)
    requires 0.0 <= k
    ensures Abs(c * k) == Abs(c) * k
  {
  }

  /** The arithmetic core of the possibility bound. */
  lemma HeightBound(ea: real, eb: real, fa: real, fb: real, d: real, m: real)
    requires 0.0 < fa && 0.0 < fb && 0.0 <= d <= ea + eb
    requires 0.0 < m && m <= 1.0 - ea / fa && m <= 1.0 - eb / fb
    ensures m <= (fa + fb - d) / (fa + fb)
  {
    var k := 1.0 - m;
    var s := fa + fb;
    DivLeIff(ea, fa, k);
    DivLeIff(eb, fb, k);
    assert k * fa + k * fb == k * s;
    DivLeIff(d, s, k);
    assert (s - d) / s == s / s - d / s;
    assert s / s == 1.0;
  }

  /** No point lies in both triangles with a grade above the possibility. */
  lemma PossibilityBoundsIntersection(a: FuzzyValue, b: FuzzyValue, x: real)
    requires PositiveFinite(a) && PositiveFinite(b)
    ensures Min(Mu(a, x), Mu(b, x)) <= IncludedIn(a, b).possibility
  {
    var fa, fb := a.fuzziness.r, b.fuzziness.r;
    var d := Abs(b.vertex - a.vertex);
    var m := Min(Mu(a, x), Mu(b, x));
    assert IncludedIn(a, b).possibility == Max((fa + fb - d) / (fa + fb), 0.0);
    if 0.0 < m {
      assert d <= Abs(x - a.vertex) + Abs(x - b.vertex);
      HeightBound(Abs(x - a.vertex), Abs(x - b.vertex), fa, fb, d, m);
    }
  }

  /** The point dividing the vertices in the ratio of the fuzzinesses. */
  function Meet(a: FuzzyValue, b: FuzzyValue): real
    requires PositiveFinite(a) && PositiveFinite(b)
  {
    a.vertex + (b.vertex - a.vertex) * (a.fuzziness.r / (a.fuzziness.r + b.fuzziness.r))
  }

  /** The two fuzziness ratios add up to 1. */
  lemma RatiosSum(fa: real, fb: real)
    requires 0.0 < fa && 0.0 < fb
    ensures fa / (fa + fb) + fb / (fa + fb) == 1.0
  {
    var s := fa + fb;
    assert fa / s + fb / s == (fa + fb) / s;
  }

  /** |c * (f / s)| / f == |c| / s */
  lemma ScaledRatio(c: real, f: real, s: real)
    requires 0.0 < f && 0.0 < s
    ensures Abs(c * (f / s)) / f == Abs(c) / s
  {
    var r := f / s;
    assert 0.0 < r;
    AbsOfScaled(c, r);
    assert Abs(c) * r / f == Abs(c) / s;
  }

  /** The distances from the meeting point, relative to each half-width. */
  lemma MeetOffsets(va: real, vb: real, fa: real, fb: real)
    requires 0.0 < fa && 0.0 < fb
    ensures Abs(va + (vb - va) * (fa / (fa + fb)) - va) / fa == Abs(vb - va) / (fa + fb)
    ensures Abs(va + (vb - va) * (fa / (fa + fb)) - vb) / fb == Abs(vb - va) / (fa + fb)
  {
    var s := fa + fb;
    var c := vb - va;
    var ra, rb := fa / s, fb / s;
    RatiosSum(fa, fb);
    assert va + c * ra - va == c * ra;
    assert va + c * ra - vb == (-c) * rb;
    ScaledRatio(c, fa, s);
    ScaledRatio(-c, fb, s);
  }

  /** For positive fuzzinesses the possibility is max(1 - d / sum, 0). */
  lemma PossibilityOfPositive(a: FuzzyValue, b: FuzzyValue)
    requires PositiveFinite(a) && PositiveFinite(b)
    ensures IncludedIn(a, b).possibility
         == Max(1.0 - Abs(b.vertex - a.vertex) / (a.fuzziness.r + b.fuzziness.r), 0.0)
  {
    var s := a.fuzziness.r + b.fuzziness.r;
    var d := Abs(b.vertex - a.vertex);
    assert s / s == 1.0;
    assert (s - d) / s == s / s - d / s;
  }

  /** A grade is fixed by the relative distance from the vertex. */
  lemma MembershipAt(v: real, f: real, x: real, q: real)
    requires 0.0 < f && Abs(x - v) / f == q
    ensures Membership(v, f, x) == Max(1.0 - q, 0.0)
  {
  }

  lemma MuAtMeet(a: FuzzyValue, b: FuzzyValue)
    requires PositiveFinite(a) && PositiveFinite(b)
    ensures Mu(a, Meet(a, b)) == Max(1.0 - Abs(b.vertex - a.vertex) / (a.fuzziness.r + b.fuzziness.r), 0.0)
    ensures Mu(b, Meet(a, b)) == Max(1.0 - Abs(b.vertex - a.vertex) / (a.fuzziness.r + b.fuzziness.r), 0.0)
  {
    var va, vb, fa, fb := a.vertex, b.vertex, a.fuzziness.r, b.fuzziness.r;
    var x := Meet(a, b);
    var q := Abs(vb - va) / (fa + fb);
    assert x == va + (vb - va) * (fa / (fa + fb));
    MeetOffsets(va, vb, fa, fb);
    MembershipAt(va, fa, x, q);
    MembershipAt(vb, fb, x, q);
  }

  /** At the meeting point both triangles have exactly the possibility as grade. */
  lemma PossibilityReachedAtMeet(a: FuzzyValue, b: FuzzyValue)
    requires PositiveFinite(a) && PositiveFinite(b)
    ensures Mu(a, Meet(a, b)) == IncludedIn(a, b).possibility
    ensures Mu(b, Meet(a, b)) == IncludedIn(a, b).possibility
  {
    PossibilityOfPositive(a, b);
    MuAtMeet(a, b);
  }

  /**
   * The arithmetic step of the bound below: with n * (fa + fb) == fb - d, a point
   * more than (1 - n) * fb from b's vertex is more than fa * n from a's.
   */
  lemma FarFromBothVertices(fa: real, fb: real, d: real, n: real, ea: real, eb: real)
    requires 0.0 < fa && 0.0 < fb && n * (fa + fb) == fb - d
    requires eb > (1.0 - n) * fb && ea >= eb - d
    ensures ea > fa * n
  {
    assert (1.0 - n) * fb - d == fa * n;
  }

  /** The bound below on plain reals: ea and eb are the distances of a point from the two vertices. */
  lemma NecessityBoundOnReals(fa: real, fb: real, d: real, ea: real, eb: real)
    requires 0.0 < fa && 0.0 < fb && 0.0 <= d && ea >= eb - d
    ensures Max((fb - d) / (fa + fb), 0.0) <= Max(1.0 - Max(1.0 - ea / fa, 0.0), Max(1.0 - eb / fb, 0.0))
  {
    var s := fa + fb;
    var n := (fb - d) / s;
    if 0.0 < n && Max(1.0 - eb / fb, 0.0) < n {
      assert n * s == fb - d;
      DivLeIff(eb, fb, 1.0 - n);
      FarFromBothVertices(fa, fb, d, n, ea, eb);
      DivLeIff(ea, fa, n);
      DivLeIff(fb - d, s, 1.0);
    }
  }

  /** Every point is outside a or inside b at least to the degree of the necessity. */
  lemma NecessityBoundsImplication(a: FuzzyValue, b: FuzzyValue, x: real)
    requires PositiveFinite(a) && PositiveFinite(b)
    ensures IncludedIn(a, b).necessity <= Max(1.0 - Mu(a, x), Mu(b, x))
  {
    var fa, fb := a.fuzziness.r, b.fuzziness.r;
    var d := Abs(b.vertex - a.vertex);
    var eb := Abs(x - b.vertex);
    var ea := Abs(x - a.vertex);
    NecessityOfPositive(a, b);
    MembershipAt(b.vertex, fb, x, eb / fb);
    MembershipAt(a.vertex, fa, x, ea / fa);
    NecessityBoundOnReals(fa, fb, d, ea, eb);
  }

  /** For positive fuzzinesses the necessity is max((f_b - d) / sum, 0). */
  lemma NecessityOfPositive(a: FuzzyValue, b: FuzzyValue)
    requires PositiveFinite(a) && PositiveFinite(b)
    ensures IncludedIn(a, b).necessity
         == Max((b.fuzziness.r - Abs(b.vertex - a.vertex)) / (a.fuzziness.r + b.fuzziness.r), 0.0)
  {
  }

  /** The point of a's support farthest from b, at the depth where the two grades cross. */
  function Farthest(a: FuzzyValue, b: FuzzyValue): real
    requires PositiveFinite(a) && PositiveFinite(b)
  {
    var fa, fb := a.fuzziness.r, b.fuzziness.r;
    var d := Abs(b.vertex - a.vertex);
    if fb <= d then a.vertex
    else
      var t := fa * ((fb - d) / (fa + fb));
      if a.vertex <= b.vertex then a.vertex - t else a.vertex + t
  }

  /** The arithmetic of the crossing depth t. */
  lemma CrossingDepth(fa: real, fb: real, d: real)
    requires 0.0 < fa && 0.0 < fb && 0.0 <= d < fb
    ensures 0.0 <= fa * ((fb - d) / (fa + fb))
    ensures fa * ((fb - d) / (fa + fb)) / fa == (fb - d) / (fa + fb)
    ensures 1.0 - (d + fa * ((fb - d) / (fa + fb))) / fb == (fb - d) / (fa + fb)
  {
    var s := fa + fb;
    var q := (fb - d) / s;
    DivNonNegative(fb - d, s);
    var t := fa * q;
    assert t / fa == q;
    assert q * s == fb - d;
    assert d + t == fb * (1.0 - q) by {
      assert d + t == d + fa * q;
      assert fb * (1.0 - q) == fb - fb * q;
      assert fa * q + fb * q == fb - d;
    }
    DivLeIff(fb * (1.0 - q), fb, 1.0 - q);
    assert fb * (1.0 - q) / fb == 1.0 - q;
  }

  /** b lies at least f_b away: the vertex of a is outside b and the necessity is 0. */
  lemma NecessityReachedWhenApart(a: FuzzyValue, b: FuzzyValue)
    requires PositiveFinite(a) && PositiveFinite(b)
    requires b.fuzziness.r <= Abs(b.vertex - a.vertex)
    ensures Max(1.0 - Mu(a, Farthest(a, b)), Mu(b, Farthest(a, b))) == IncludedIn(a, b).necessity
  {
    var fa, fb := a.fuzziness.r, b.fuzziness.r;
    var d := Abs(b.vertex - a.vertex);
    NecessityOfPositive(a, b);
    assert Farthest(a, b) == a.vertex;
    DivLeIff(d, fb, 1.0);
    assert Mu(b, a.vertex) == 0.0;
    DivLeIff(fb - d, fa + fb, 0.0);
  }

  /** b reaches over the vertex of a: both grades cross at depth (f_b - d) / sum. */
  lemma NecessityReachedWhenOverlapping(a: FuzzyValue, b: FuzzyValue)
    requires PositiveFinite(a) && PositiveFinite(b)
    requires Abs(b.vertex - a.vertex) < b.fuzziness.r
    ensures Max(1.0 - Mu(a, Farthest(a, b)), Mu(b, Farthest(a, b))) == IncludedIn(a, b).necessity
  {
    var fa, fb := a.fuzziness.r, b.fuzziness.r;
    var d := Abs(b.vertex - a.vertex);
    NecessityOfPositive(a, b);
    var x := Farthest(a, b);
    var t := fa * ((fb - d) / (fa + fb));
    CrossingDepth(fa, fb, d);
    assert Abs(x - a.vertex) == t;
    assert Abs(x - b.vertex) == d + t;
    assert Mu(a, x) == Max(1.0 - t / fa, 0.0);
    assert Mu(b, x) == Max(1.0 - (d + t) / fb, 0.0);
  }

  /** At the farthest point the bound of NecessityBoundsImplication is reached. */
  lemma NecessityReachedAtFarthest(a: FuzzyValue, b: FuzzyValue)
    requires PositiveFinite(a) && PositiveFinite(b)
    ensures Max(1.0 - Mu(a, Farthest(a, b)), Mu(b, Farthest(a, b))) == IncludedIn(a, b).necessity
  {
    if b.fuzziness.r <= Abs(b.vertex - a.vertex) {
      NecessityReachedWhenApart(a, b);
    } else {
      NecessityReachedWhenOverlapping(a, b);
    }
  }
}
