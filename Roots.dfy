/**
 * Vocabulary shared by the five root finders of the anpi library: the outcome
 * of a solver call, the errors a solver raises, and the few real-valued
 * helpers their loops use.
 *
 * Arithmetic is over the mathematical reals. The C++ code is generic over a
 * floating-point type T; here a value of T is a `real`, the NaN that a
 * solver returns as "no root found" is the `NoRoot` outcome, and every
 * exception a solver throws is an `Error` outcome carrying its kind.
 */
module Roots {

  /** The exceptions thrown by the solvers, one constructor per message. */
  datatype ErrorKind =
    | IntervalReversed     // anpi::Exception("Interval reversed"): bisection, Brent
    | SameSign             // anpi::Exception("Signos iguales"): bisection, Brent
    | DerivativeVanishing  // anpi::Exception("Division sobre 0"): Newton-Raphson
    | NotBracketed         // throw "root must be bracketed in rootRidder."
    | MaxIterations        // throw "rootRidder exceed maximum iterations"
    | NeverGetHere         // throw "never get here." (Ridder's re-bracketing)

  /** What a solver call produces: a root, the NaN sentinel, or a thrown error. */
  datatype Result = Root(x: real) | NoRoot | Error(kind: ErrorKind)

  function Abs(x: real): (r: real)
    ensures 0.0 <= r && (r == x || r == -x)
  {
    if x < 0.0 then -x else x
  }

  /** std::signbit over the reals: set exactly for negative values (there is no -0.0 here). */
  predicate SignBit(v: real)
  {
    v < 0.0
  }

  /** f changes sign strictly between the two values: one is positive, the other negative. */
  predicate Opposite(a: real, b: real)
  {
    (a > 0.0 && b < 0.0) || (a < 0.0 && b > 0.0)
  }

  /** Both values positive or both negative: a * b > 0, stated by signs. */
  predicate SameStrictSign(a: real, b: real)
  {
    (a > 0.0 && b > 0.0) || (a < 0.0 && b < 0.0)
  }

  /** a * b <= 0, stated by signs: the two values are not both positive and not both negative. */
  predicate NotSameSign(a: real, b: real)
  {
    (a <= 0.0 && 0.0 <= b) || (b <= 0.0 && 0.0 <= a)
  }

  /** x lies in the closed interval spanned by a and b, whichever of the two is smaller. */
  predicate Between(x: real, a: real, b: real)
  {
    (a <= x <= b) || (b <= x <= a)
  }

  /**
   * The approximate relative error in percent, |(x - xold) / x| * 100, that
   * bisection, secant, Newton-Raphson and Brent compute after each step; the
   * solvers compute it only when |x| > eps, which keeps x away from 0.
   */
  function RelErr(x: real, xold: real): (e: real)
    requires x != 0.0
    ensures 0.0 <= e
    ensures e == 0.0 <==> x == xold
  {
    Abs((x - xold) / x) * 100.0
  }

  /** The platform square root, passed in as a function: on non-negative arguments it returns the non-negative root. */
  ghost predicate IsSqrt(sqrt: real -> real)
  {
    forall x :: 0.0 <= x ==> 0.0 <= sqrt(x) && sqrt(x) * sqrt(x) == x
  }

  /** The sign of a product, by the signs of its factors. */
  lemma ProductSign(a: real, b: real)
    ensures a * b < 0.0 <==> Opposite(a, b)
    ensures a * b == 0.0 <==> a == 0.0 || b == 0.0
    ensures a * b > 0.0 <==> SameStrictSign(a, b)
    ensures a * b <= 0.0 <==> NotSameSign(a, b)
  {
    if a > 0.0 && b > 0.0 {
      assert a * b > 0.0;
    } else if a < 0.0 && b < 0.0 {
      assert (-a) * (-b) > 0.0;
    } else if a > 0.0 && b < 0.0 {
      assert a * (-b) > 0.0;
    } else if a < 0.0 && b > 0.0 {
      assert (-a) * b > 0.0;
    }
  }

  /**
   * For a non-negative relative error, the Newton-Raphson test
   * `ea < sqrt(eps)` is the test `ea * ea < eps`.
   */
  lemma BelowSqrt(sqrt: real -> real, ea: real, eps: real)
    requires IsSqrt(sqrt)
    requires 0.0 <= ea && 0.0 <= eps
    ensures ea < sqrt(eps) <==> ea * ea < eps
  {
    var s := sqrt(eps);
    assert 0.0 <= s && s * s == eps;
    var low, mid, high := ea * ea, ea * s, s * s;
    if ea < s {
      assert low <= mid < high;
    } else {
      assert high <= mid <= low;
    }
  }
}
