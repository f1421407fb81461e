/**
 * anpi::rootBrent, the hybrid of this library (not Brent-Dekker): it
 * validates [xl, xu] as bisection does, runs inverse quadratic
 * interpolation on three points for up to digits squared passes, and, if
 * that does not converge, falls back to rootSecant from (xl, xu) and then to
 * rootBisection on [xl, xu].
 */
module Brent {
  import opened Roots
  import Bisection
  import Secant

  /** The three interpolation points (x1, y1), (x2, y2), (x3, y3), the newest last, and the latest relative error ea. */
  datatype State = State(x1: real, x2: real, x3: real, y1: real, y2: real, y3: real, ea: real)

  /** Each y caches f at its x. */
  predicate Cached(f: real -> real, s: State)
  {
    s.y1 == f(s.x1) && s.y2 == f(s.x2) && s.y3 == f(s.x3)
  }

  /** The interpolation is defined: the three y values are pairwise distinct. */
  predicate Distinct(y1: real, y2: real, y3: real)
  {
    y1 != y2 && y1 != y3 && y2 != y3
  }

  /** The iteration budget of the interpolation loop: digits squared passes. */
  function Budget(digits: nat): nat
  {
    digits * digits
  }

  /** The first three points: xl, the midpoint and xu, each evaluated afresh, with ea = 0. */
  function Seed(f: real -> real, xl: real, xu: real): State
  {
    var x2 := (xl + xu) / 2.0;
    State(xl, x2, xu, f(xl), f(x2), f(xu), 0.0)
  }

  /** The denominator (ya - yb) * (ya - yc) of the Lagrange term of node ya; it is not 0 for distinct nodes. */
  function Denom(ya: real, yb: real, yc: real): (d: real)
    requires Distinct(ya, yb, yc)
    ensures d != 0.0
  {
    NonZeroProduct(ya - yb, ya - yc);
    (ya - yb) * (ya - yc)
  }

  /** The term of node ya in the C++ formula for xN: x * yb * yc / ((ya - yb) * (ya - yc)). */
  function Term(x: real, ya: real, yb: real, yc: real): real
    requires Distinct(ya, yb, yc)
  {
    x * yb * yc / Denom(ya, yb, yc)
  }

  /** The C++ estimate xN: the three-term Lagrange form of the inverse quadratic at y = 0. */
  function Lagrange(x1: real, x2: real, x3: real, y1: real, y2: real, y3: real): real
    requires Distinct(y1, y2, y3)
  {
    Term(x1, y1, y2, y3) + Term(x2, y2, y1, y3) + Term(x3, y3, y1, y2)
  }

  /** The Lagrange basis polynomial in y that is 1 at ya and 0 at yb and yc. */
  function Basis(y: real, ya: real, yb: real, yc: real): real
    requires Distinct(ya, yb, yc)
  {
    ((y - yb) * (y - yc)) / Denom(ya, yb, yc)
  }

  /** The inverse quadratic: the quadratic in y through (y1, x1), (y2, x2), (y3, x3). */
  function InverseQuadratic(s: State, y: real): real
    requires Distinct(s.y1, s.y2, s.y3)
  {
    s.x1 * Basis(y, s.y1, s.y2, s.y3) + s.x2 * Basis(y, s.y2, s.y1, s.y3) + s.x3 * Basis(y, s.y3, s.y1, s.y2)
  }

  /** One pass, up to but not including the test: the new estimate becomes the third point and the oldest point is dropped. */
  function Step(f: real -> real, s: State, eps: real): State
    requires 0.0 < eps && Distinct(s.y1, s.y2, s.y3)
  {
    var xn := Lagrange(s.x1, s.x2, s.x3, s.y1, s.y2, s.y3);
    var ea := if Abs(xn) > eps then RelErr(xn, s.x3) else s.ea;
    State(s.x2, s.x3, xn, s.y2, s.y3, f(xn), ea)
  }

  /** The C++ stopping test: ea < eps and |y3| - eps < 0. */
  predicate Converged(t: State, eps: real)
  {
    t.ea < eps && Abs(t.y3) - eps < 0.0
  }

  /**
   * What the interpolation loop yields from s with n passes left: a root, or
   * NoRoot when it runs out of passes. When two y values coincide the C++
   * estimate is infinite or NaN; provided funct maps non-finite arguments to
   * non-finite values, the loop can then no longer pass its test, and here
   * that leaves the loop at once.
   */
  function Primary(f: real -> real, s: State, eps: real, n: nat): Result
    requires 0.0 < eps
    decreases n
  {
    if n == 0 then NoRoot
    else if !Distinct(s.y1, s.y2, s.y3) then NoRoot
    else
      var t := Step(f, s, eps);
      if Converged(t, eps) then Root(t.x3) else Primary(f, t, eps, n - 1)
  }

  /** After the interpolation loop: rootSecant from (xl, xu), and if that yields NaN, rootBisection on [xl, xu]. */
  function Fallback(f: real -> real, xl: real, xu: real, eps: real, digits: nat): Result
    requires 0.0 < eps
  {
    var sr := Secant.SecantOf(f, xl, xu, eps, digits);
    if !sr.NoRoot? then sr else Bisection.BisectionOf(f, xl, xu, eps, digits)
  }

  /** rootBrent(f, xl, xu, eps) for a type with `digits` mantissa bits. */
  function BrentOf(f: real -> real, xl: real, xu: real, eps: real, digits: nat): Result
    requires 0.0 < eps
  {
    var fl := f(xl);
    var fu := f(xu);
    if xl > xu then Error(IntervalReversed)
    else if SignBit(fl) == SignBit(fu) then Error(SameSign)
    else
      var p := Primary(f, Seed(f, xl, xu), eps, Budget(digits));
      if p.Root? then p else Fallback(f, xl, xu, eps, digits)
  }

  /** For a non-zero d, d / d = 1 and 0 / d = 0. */
  lemma DivSelf(d: real)
    requires d != 0.0
    ensures d / d == 1.0 && 0.0 / d == 0.0
  {
  }

  /** A product of two non-zero factors is not zero. */
  lemma NonZeroProduct(a: real, b: real)
    requires a != 0.0 && b != 0.0
    ensures a * b != 0.0
  {
    ProductSign(a, b);
  }

  /** Each basis polynomial is 1 at its own node and 0 at the two others. */
  lemma BasisAtNodes(ya: real, yb: real, yc: real)
    requires Distinct(ya, yb, yc)
    ensures Basis(ya, ya, yb, yc) == 1.0
    ensures Basis(yb, ya, yb, yc) == 0.0
    ensures Basis(yc, ya, yb, yc) == 0.0
  {
    var d := Denom(ya, yb, yc);
    DivSelf(d);
    assert (yb - yb) * (yb - yc) == 0.0;
    assert (yc - yb) * (yc - yc) == 0.0;
  }

  /** The inverse quadratic passes through the three points. */
  lemma InverseQuadraticInterpolates(s: State)
    requires Distinct(s.y1, s.y2, s.y3)
    ensures InverseQuadratic(s, s.y1) == s.x1
    ensures InverseQuadratic(s, s.y2) == s.x2
    ensures InverseQuadratic(s, s.y3) == s.x3
  {
    BasisAtNodes(s.y1, s.y2, s.y3);
    BasisAtNodes(s.y2, s.y1, s.y3);
    BasisAtNodes(s.y3, s.y1, s.y2);
  }

  /** a * b * c / d == a * ((b * c) / d), the regrouping that turns a C++ term into a basis term. */
  lemma Regroup(a: real, b: real, c: real, d: real)
    requires d != 0.0
    ensures a * b * c / d == a * ((b * c) / d)
  {
    var q := (b * c) / d;
    assert q * d == b * c;
    assert (a * q) * d == a * b * c;
  }

  /** Each C++ term is x times the basis polynomial of ya at y = 0. */
  lemma TermAtZero(x: real, ya: real, yb: real, yc: real)
    requires Distinct(ya, yb, yc)
    ensures Term(x, ya, yb, yc) == x * Basis(0.0, ya, yb, yc)
  {
    Regroup(x, yb, yc, Denom(ya, yb, yc));
    assert (0.0 - yb) * (0.0 - yc) == yb * yc;
  }

  /** The C++ estimate xN is the value at y = 0 of the inverse quadratic through the three points. */
  lemma LagrangeIsInverseQuadraticAtZero(s: State)
    requires Distinct(s.y1, s.y2, s.y3)
    ensures Lagrange(s.x1, s.x2, s.x3, s.y1, s.y2, s.y3) == InverseQuadratic(s, 0.0)
  {
    TermAtZero(s.x1, s.y1, s.y2, s.y3);
    TermAtZero(s.x2, s.y2, s.y1, s.y3);
    TermAtZero(s.x3, s.y3, s.y1, s.y2);
  }

  /** A pass drops the oldest point, keeps the caches and appends the new estimate with f evaluated there. */
  lemma StepShifts(f: real -> real, s: State, eps: real)
    requires 0.0 < eps && Distinct(s.y1, s.y2, s.y3) && Cached(f, s)
    ensures var t := Step(f, s, eps);
      && Cached(f, t)
      && t.x1 == s.x2 && t.x2 == s.x3 && t.y1 == s.y2 && t.y2 == s.y3
      && t.x3 == InverseQuadratic(s, 0.0)
  {
    LagrangeIsInverseQuadraticAtZero(s);
  }

  /** Every root of the interpolation loop is a point with residual |f(x)| < eps; otherwise it yields NoRoot. */
  lemma {:induction false} PrimaryRootResidual(f: real -> real, s: State, eps: real, n: nat)
    requires 0.0 < eps && Cached(f, s)
    ensures Primary(f, s, eps, n).Root? || Primary(f, s, eps, n) == NoRoot
    ensures Primary(f, s, eps, n).Root? ==> Abs(f(Primary(f, s, eps, n).x)) < eps
    decreases n
  {
    if n > 0 && Distinct(s.y1, s.y2, s.y3) {
      var t := Step(f, s, eps);
      StepShifts(f, s, eps);
      if !Converged(t, eps) {
        PrimaryRootResidual(f, t, eps, n - 1);
      }
    }
  }

  /** A pass from p goes on to the next pass: the three y values are distinct and the new point fails the stopping test. */
  predicate GoesOn(f: real -> real, p: State, eps: real)
    requires 0.0 < eps
  {
    Distinct(p.y1, p.y2, p.y3) && !Converged(Step(f, p, eps), eps)
  }

  /** The state after k passes from s that went on (it stays at the state where the loop stopped). */
  function Reached(f: real -> real, s: State, eps: real, k: nat): State
    requires 0.0 < eps
    decreases k
  {
    if k == 0 || !GoesOn(f, s, eps) then s else Reached(f, Step(f, s, eps), eps, k - 1)
  }

  /** Each of the first k passes from s went on, so the loop is at the start of pass k + 1. */
  predicate Reaches(f: real -> real, s: State, eps: real, k: nat)
    requires 0.0 < eps
  {
    forall j :: 0 <= j < k ==> GoesOn(f, Reached(f, s, eps, j), eps)
  }

  /** The pass from p returns x: the y values are distinct, and the new point x passes both tests. */
  predicate ConvergesFrom(f: real -> real, p: State, eps: real, x: real)
    requires 0.0 < eps
  {
    Distinct(p.y1, p.y2, p.y3) && Converged(Step(f, p, eps), eps) && x == Step(f, p, eps).x3
  }

  /** A pass that goes on moves the reached states one place. */
  lemma ReachedShift(f: real -> real, s: State, eps: real, k: nat)
    requires 0.0 < eps && GoesOn(f, s, eps)
    ensures Reached(f, s, eps, k + 1) == Reached(f, Step(f, s, eps), eps, k)
    ensures Reaches(f, s, eps, k + 1) <==> Reaches(f, Step(f, s, eps), eps, k)
  {
    var t := Step(f, s, eps);
    forall j | 1 <= j <= k + 1
      ensures Reached(f, s, eps, j) == Reached(f, t, eps, j - 1)
    {
    }
    assert Reached(f, s, eps, 0) == s;
  }

  /** The interpolation loop returns x exactly when it reaches a pass whose new point x passes both tests. */
  lemma {:induction false} PrimaryRootIff(f: real -> real, s: State, eps: real, n: nat, x: real)
    requires 0.0 < eps
    ensures Primary(f, s, eps, n) == Root(x) <==>
      exists k :: 0 <= k < n && Reaches(f, s, eps, k) && ConvergesFrom(f, Reached(f, s, eps, k), eps, x)
    decreases n
  {
    if n > 0 {
      assert Reached(f, s, eps, 0) == s;
      if GoesOn(f, s, eps) {
        var t := Step(f, s, eps);
        PrimaryRootIff(f, t, eps, n - 1, x);
        if exists k :: 0 <= k < n && Reaches(f, s, eps, k) && ConvergesFrom(f, Reached(f, s, eps, k), eps, x) {
          var k :| 0 <= k < n && Reaches(f, s, eps, k) && ConvergesFrom(f, Reached(f, s, eps, k), eps, x);
          ReachedShift(f, s, eps, k - 1);
          assert Reaches(f, t, eps, k - 1) && ConvergesFrom(f, Reached(f, t, eps, k - 1), eps, x);
        }
        if Primary(f, t, eps, n - 1) == Root(x) {
          var k :| 0 <= k < n - 1 && Reaches(f, t, eps, k) && ConvergesFrom(f, Reached(f, t, eps, k), eps, x);
          ReachedShift(f, s, eps, k);
        }
      } else {
        forall k | 0 < k < n
          ensures !Reaches(f, s, eps, k)
        {
          assert !GoesOn(f, Reached(f, s, eps, 0), eps);
        }
        if ConvergesFrom(f, s, eps, x) {
          assert Reaches(f, s, eps, 0);
        } else if Distinct(s.y1, s.y2, s.y3) {
          assert Primary(f, s, eps, n) == Root(Step(f, s, eps).x3);
        }
      }
    }
  }

  /**
   * A root x of the interpolation loop passed both halves of the C++ test in
   * the reached pass k that returned it: x is that pass's xN and |f(x)| < eps;
   * when |x| > eps the relative change in percent from the x3 the pass started
   * with is below eps, and otherwise ea was kept and the ea the pass started
   * with is below eps.
   */
  lemma PrimaryRootPassedTest(f: real -> real, s: State, eps: real, n: nat, x: real)
    requires 0.0 < eps
    requires Primary(f, s, eps, n) == Root(x)
    ensures exists k :: (
      && 0 <= k < n && Reaches(f, s, eps, k) && ConvergesFrom(f, Reached(f, s, eps, k), eps, x)
      && x == Lagrange(Reached(f, s, eps, k).x1, Reached(f, s, eps, k).x2, Reached(f, s, eps, k).x3,
                       Reached(f, s, eps, k).y1, Reached(f, s, eps, k).y2, Reached(f, s, eps, k).y3)
      && Abs(f(x)) < eps
      && (Abs(x) > eps ==> RelErr(x, Reached(f, s, eps, k).x3) < eps)
      && (Abs(x) <= eps ==> Reached(f, s, eps, k).ea < eps))
  {
    PrimaryRootIff(f, s, eps, n, x);
    var k :| 0 <= k < n && Reaches(f, s, eps, k) && ConvergesFrom(f, Reached(f, s, eps, k), eps, x);
  }

  /**
   * rootBrent raises exactly when rootBisection would, with the same error;
   * once the bracket is valid it returns a root with residual below eps from
   * the interpolation loop, rootSecant's root, or rootBisection's result, and
   * a bisection root lies in [xl, xu].
   */
  lemma BrentOfOutcomes(f: real -> real, xl: real, xu: real, eps: real, digits: nat)
    requires 0.0 < eps
    ensures var r := BrentOf(f, xl, xu, eps, digits);
      && (r.Error? <==> Bisection.BisectionOf(f, xl, xu, eps, digits).Error?)
      && (r.Error? ==> r == Bisection.BisectionOf(f, xl, xu, eps, digits))
      && (r == Error(IntervalReversed) <==> xl > xu)
      && (r == Error(SameSign) <==> xl <= xu && SignBit(f(xl)) == SignBit(f(xu)))
      && (r.Root? ==>
            || Abs(f(r.x)) < eps
            || r == Secant.SecantOf(f, xl, xu, eps, digits)
            || (r == Bisection.BisectionOf(f, xl, xu, eps, digits) && xl <= r.x <= xu))
      && (r == NoRoot <==>
            && !r.Error?
            && Primary(f, Seed(f, xl, xu), eps, Budget(digits)) == NoRoot
            && Secant.SecantOf(f, xl, xu, eps, digits) == NoRoot
            && Bisection.BisectionOf(f, xl, xu, eps, digits) == NoRoot)
  {
    Bisection.BisectionOfOutcomes(f, xl, xu, eps, digits);
    if xl <= xu && SignBit(f(xl)) != SignBit(f(xu)) {
      PrimaryRootResidual(f, Seed(f, xl, xu), eps, Budget(digits));
      Secant.RunNeverFails(f, Secant.Start(f, xl, xu), eps, Secant.Budget(digits));
    }
  }

  /** One unfolding of Primary, for the loop of RootBrent. */
  lemma PrimaryUnfold(f: real -> real, s: State, eps: real, n: nat)
    requires 0.0 < eps && 0 < n && Distinct(s.y1, s.y2, s.y3)
    ensures Converged(Step(f, s, eps), eps) ==> Primary(f, s, eps, n) == Root(Step(f, s, eps).x3)
    ensures !Converged(Step(f, s, eps), eps) ==> Primary(f, s, eps, n) == Primary(f, Step(f, s, eps), eps, n - 1)
  {
  }

  /**
   * The body of the C++ interpolation loop up to its test: the estimate xN,
   * the relative error against x3 when |xN| > eps, and the shift of the
   * three points with one call of f, computing Step.
   */
  method Interpolate(f: real -> real, x1: real, x2: real, x3: real, y1: real, y2: real, y3: real, ea: real, eps: real)
    returns (t: State)
    requires 0.0 < eps && Distinct(y1, y2, y3)
    ensures t == Step(f, State(x1, x2, x3, y1, y2, y3, ea), eps)
  {
    var x1, x2, x3, y1, y2, y3, ea := x1, x2, x3, y1, y2, y3, ea;
    var xn := Lagrange(x1, x2, x3, y1, y2, y3);
    if Abs(xn) > eps {
      ea := RelErr(xn, x3);
    }
    y1 := y2;
    y2 := y3;
    y3 := f(xn);
    x1 := x2;
    x2 := x3;
    x3 := xn;
    return State(x1, x2, x3, y1, y2, y3, ea);
  }

  /**
   * The C++ loop of rootBrent. It returns the function's result; its errors
   * are exactly those of the validation, raised after two calls of f; a
   * root has residual below eps, or is rootSecant's root, or is
   * rootBisection's root in [xl, xu]; the fallback calls rootSecant and
   * rootBisection, whose calls of f are counted in evals.
   */
  method RootBrent(f: real -> real, xl: real, xu: real, eps: real, digits: nat)
    returns (r: Result, ghost passes: nat, ghost evals: nat)
    requires 0.0 < eps
    ensures r == BrentOf(f, xl, xu, eps, digits)
    ensures r == Error(IntervalReversed) <==> xl > xu
    ensures r == Error(SameSign) <==> xl <= xu && SignBit(f(xl)) == SignBit(f(xu))
    ensures r.Error? ==> passes == 0 && evals == 2
    ensures !r.Error? ==> passes <= Budget(digits) && 5 + passes <= evals
    ensures r.Root? ==>
      || Abs(f(r.x)) < eps
      || r == Secant.SecantOf(f, xl, xu, eps, digits)
      || (r == Bisection.BisectionOf(f, xl, xu, eps, digits) && xl <= r.x <= xu)
  {
    var fl := f(xl);
    var fu := f(xu);
    passes, evals := 0, 2;
    if xl > xu {
      return Error(IntervalReversed), passes, evals;
    }
    if SignBit(fl) == SignBit(fu) {
      return Error(SameSign), passes, evals;
    }
    var maxi := digits;
    var x1 := xl;
    var x2 := (xl + xu) / 2.0;
    var x3 := xu;
    var y1 := f(x1);
    var y2 := f(x2);
    var y3 := f(x3);
    evals := evals + 3;
    var ea := 0.0;
    maxi := maxi * maxi;
    ghost var seed := Seed(f, xl, xu);
    var j := maxi;
    while j > 0
      invariant 0 <= j <= maxi == Budget(digits)
      invariant Cached(f, State(x1, x2, x3, y1, y2, y3, ea))
      invariant Primary(f, State(x1, x2, x3, y1, y2, y3, ea), eps, j) == Primary(f, seed, eps, maxi)
      invariant passes == maxi - j && evals == 5 + passes
    {
      if !Distinct(y1, y2, y3) {
        break;
      }
      PrimaryUnfold(f, State(x1, x2, x3, y1, y2, y3, ea), eps, j);
      var t := Interpolate(f, x1, x2, x3, y1, y2, y3, ea, eps);
      x1, x2, x3, y1, y2, y3, ea := t.x1, t.x2, t.x3, t.y1, t.y2, t.y3, t.ea;
      passes, evals := passes + 1, evals + 1;
      if ea < eps && Abs(y3) - eps < 0.0 {
        return Root(x3), passes, evals;
      }
      j := j - 1;
    }
    assert Primary(f, seed, eps, maxi) == NoRoot;
    var root;
    ghost var secantPasses, secantEvals;
    root, secantPasses, secantEvals := Secant.RootSecant(f, xl, xu, eps, digits);
    evals := evals + secantEvals;
    if !root.NoRoot? {
      return root, passes, evals;
    }
    ghost var bisectionPasses, bisectionEvals;
    root, bisectionPasses, bisectionEvals := Bisection.RootBisection(f, xl, xu, eps, digits);
    evals := evals + bisectionEvals;
    Bisection.BisectionOfOutcomes(f, xl, xu, eps, digits);
    assert !root.Error?;
    return root, passes, evals;
  }
}
