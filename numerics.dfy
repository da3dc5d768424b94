/** Real-number helpers shared by the force and recognition code. */
module Numerics {
  /** Math.abs */
  function Abs(x: real): (r: real)
    ensures 0.0 <= r && (r == x || r == -x)
  {
    if x < 0.0 then -x else x
  }

  /** Math.min on two reals */
  function Min(a: real, b: real): (r: real)
    ensures r <= a && r <= b && (r == a || r == b)
  {
    if a <= b then a else b
  }

  /** Math.max on two reals */
  function Max(a: real, b: real): (r: real)
    ensures a <= r && b <= r && (r == a || r == b)
  {
    if a >= b then a else b
  }

  /**
   * Math.sqrt is not defined here: every computation that needs a square root
   * receives it as a parameter, and the facts that depend on it being exact
   * assume this predicate of it (the value at 0 is spelled out because the
   * solver does not derive it from the squares).
   */
  ghost predicate ExactSqrt(sqrt: real -> real)
  {
    && sqrt(0.0) == 0.0
    && forall x {:trigger sqrt(x)} :: 0.0 <= x ==> 0.0 <= sqrt(x) && sqrt(x) * sqrt(x) == x
  }

  /** The square root of a square is the absolute value. */
  lemma SqrtOfSquare(sqrt: real -> real, y: real)
    requires ExactSqrt(sqrt)
    ensures sqrt(y * y) == Abs(y)
  {
    var r := sqrt(y * y);
    assert 0.0 <= y * y;
    assert 0.0 <= r && r * r == y * y;
    var a := Abs(y);
    assert a * a == y * y;
    assert (r - a) * (r + a) == 0.0;
    if r + a == 0.0 {
      assert r == 0.0 && a == 0.0;
    } else {
      assert r - a == (r - a) * (r + a) / (r + a);
    }
  }

  /** Only zero squares to zero. */
  lemma SquareZero(x: real)
    ensures 0.0 <= x * x
    ensures x != 0.0 ==> 0.0 < x * x
  {
    if x < 0.0 {
      var y := -x;
      assert 0.0 < y * y;
      assert x * x == y * y;
    }
  }

  /** A positive argument has a positive square root. */
  lemma SqrtPositive(sqrt: real -> real, x: real)
    requires ExactSqrt(sqrt) && 0.0 < x
    ensures 0.0 < sqrt(x)
  {
    assert 0.0 <= sqrt(x) && sqrt(x) * sqrt(x) == x;
  }
}
