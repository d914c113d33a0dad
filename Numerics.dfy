/** The real-number primitives the Python code takes from numpy, kept abstract:
    a square root is any function that meets the laws below. */
module Numerics {

  /** `sqrt` behaves as the square root on the non-negative reals (np.sqrt,
      and the norm inside np.linalg.norm): it is non-negative, strictly
      increasing, and undoes squaring. */
  ghost predicate IsSqrt(sqrt: real -> real) {
    && (forall x :: 0.0 <= x ==> 0.0 <= sqrt(x))
    && (forall x, d :: 0.0 <= x && 0.0 < d ==> sqrt(x) < sqrt(Shifted(x, d)))
    && (forall b :: 0.0 <= b ==> sqrt(Square(b)) == b)
  }

  function Square(b: real): real {
    b * b
  }

  /** x moved up by d; it names the larger argument in the monotonicity law,
      so that the law is used only where a proof mentions it. */
  function Shifted(x: real, d: real): real {
    x + d
  }

  lemma SqrtZero(sqrt: real -> real)
    requires IsSqrt(sqrt)
    ensures sqrt(0.0) == 0.0
  {
    assert sqrt(Square(0.0)) == 0.0;
  }

  lemma SqrtPositive(sqrt: real -> real, x: real)
    requires IsSqrt(sqrt) && 0.0 < x
    ensures 0.0 < sqrt(x)
  {
    SqrtZero(sqrt);
    SqrtIncreasing(sqrt, 0.0, x);
  }

  /** The square root squared gives back its argument. */
  lemma SqrtSquared(sqrt: real -> real, a: real)
    requires IsSqrt(sqrt) && 0.0 <= a
    ensures sqrt(a) * sqrt(a) == a
  {
    var s := sqrt(a);
    assert 0.0 <= Square(s);
    assert sqrt(Square(s)) == s;
    if Square(s) < a {
      SqrtIncreasing(sqrt, Square(s), a);
    } else if a < Square(s) {
      SqrtIncreasing(sqrt, a, Square(s));
    }
  }

  /** The monotonicity law, for any two arguments in order. */
  lemma SqrtIncreasing(sqrt: real -> real, x: real, y: real)
    requires IsSqrt(sqrt) && 0.0 <= x < y
    ensures sqrt(x) < sqrt(y)
  {
    assert Shifted(x, y - x) == y;
  }

  /** A positive factor comes out of the root squared: sqrt(k*k*a) is
      k * sqrt(a). */
  lemma SqrtScale(sqrt: real -> real, a: real, k: real)
    requires IsSqrt(sqrt) && 0.0 <= a && 0.0 < k
    ensures sqrt(k * k * a) == k * sqrt(a)
  {
    var s := sqrt(a);
    SqrtSquared(sqrt, a);
    assert 0.0 <= k * s;
    assert Square(k * s) == k * k * (s * s);
    assert Square(k * s) == k * k * a;
    assert sqrt(Square(k * s)) == k * s;
  }

  /** Comparing a square root with a non-negative bound is comparing the
      radicand with the bound's square. */
  lemma SqrtLessIff(sqrt: real -> real, x: real, b: real)
    requires IsSqrt(sqrt) && 0.0 <= x && 0.0 <= b
    ensures sqrt(x) < b <==> x < b * b
  {
    assert sqrt(Square(b)) == b;
    if x < Square(b) {
      SqrtIncreasing(sqrt, x, Square(b));
    } else if Square(b) < x {
      SqrtIncreasing(sqrt, Square(b), x);
    }
  }
}
