/**
 * anpi::rootBisection: validate the bracket [xl, xu], then halve it until
 * the relative change of the midpoint falls below eps, keeping at each pass
 * the half on which f changes sign.
 */
module Bisection {
  import opened Roots

  /**
   * The loop variables that survive a pass: the bracket [xl, xu], fl caching
   * f(xl), the latest midpoint xr (xl before the first pass) and the latest
   * relative error ea in percent (0 before the first pass).
   */
  datatype State = State(xl: real, xu: real, fl: real, xr: real, ea: real)

  /** The loop starts from the validated bracket. */
  function Start(f: real -> real, xl: real, xu: real): State
  {
    State(xl, xu, f(xl), xl, 0.0)
  }

  /** The bracket invariant: ordered ends, fl caching f(xl), and f(xl) * f(xu) <= 0 (a sign change or a zero end). */
  predicate Bracketed(f: real -> real, s: State)
  {
    s.xl <= s.xu && s.fl == f(s.xl) && NotSameSign(s.fl, f(s.xu))
  }

  /** The iteration budget: digits squared passes. */
  function Budget(digits: nat): nat
  {
    digits * digits
  }

  /**
   * One pass of the loop body, up to but not including the convergence test
   * `ea < eps`. The C++ branches on the sign of fl * fr; the branches here
   * are on the signs of the two factors (Roots.ProductSign).
   */
  function Step(f: real -> real, s: State, eps: real): State
    requires 0.0 < eps
  {
    var xr := (s.xl + s.xu) / 2.0;
    var fr := f(xr);
    var ea := if Abs(xr) > eps then RelErr(xr, s.xr) else s.ea;
    if Opposite(s.fl, fr) then State(s.xl, xr, s.fl, xr, ea)
    else if SameStrictSign(s.fl, fr) then State(xr, s.xu, fr, xr, ea)
    else State(s.xl, s.xu, s.fl, if Abs(s.fl) < eps then s.xl else xr, 0.0)
  }

  /** The state after k passes that did not return. */
  function Iterate(f: real -> real, s: State, eps: real, k: nat): State
    requires 0.0 < eps
    decreases k
  {
    if k == 0 then s else Iterate(f, Step(f, s, eps), eps, k - 1)
  }

  /** What the loop returns from state s with n passes left. */
  function Run(f: real -> real, s: State, eps: real, n: nat): Result
    requires 0.0 < eps
    decreases n
  {
    if n == 0 then NoRoot
    else
      var t := Step(f, s, eps);
      if t.ea < eps then Root(t.xr) else Run(f, t, eps, n - 1)
  }

  /** One unfolding of Run, for the loop of RootBisection. */
  lemma RunUnfold(f: real -> real, s: State, eps: real, n: nat)
    requires 0.0 < eps && 0 < n
    ensures Step(f, s, eps).ea < eps ==> Run(f, s, eps, n) == Root(Step(f, s, eps).xr)
    ensures eps <= Step(f, s, eps).ea ==> Run(f, s, eps, n) == Run(f, Step(f, s, eps), eps, n - 1)
  {
  }

  /** rootBisection(f, xl, xu, eps) for a type with `digits` mantissa bits. */
  function BisectionOf(f: real -> real, xl: real, xu: real, eps: real, digits: nat): Result
    requires 0.0 < eps
  {
    var fl := f(xl);
    var fu := f(xu);
    if xl > xu then Error(IntervalReversed)
    else if SignBit(fl) == SignBit(fu) then Error(SameSign)
    else Run(f, Start(f, xl, xu), eps, Budget(digits))
  }

  /** A bracket that passes both checks satisfies the bracket invariant. */
  lemma ValidatedIsBracketed(f: real -> real, xl: real, xu: real)
    requires xl <= xu && SignBit(f(xl)) != SignBit(f(xu))
    ensures Bracketed(f, Start(f, xl, xu))
  {
    ProductSign(f(xl), f(xu));
  }

  /** When f(xl) * f(xr) == 0 the pass sets ea to 0 and so returns at once: xl if |f(xl)| < eps, else the midpoint. */
  lemma ZeroProductReturns(f: real -> real, s: State, eps: real)
    requires 0.0 < eps
    requires s.fl * f((s.xl + s.xu) / 2.0) == 0.0
    ensures Step(f, s, eps).ea < eps
    ensures Step(f, s, eps).xr == if Abs(s.fl) < eps then s.xl else (s.xl + s.xu) / 2.0
  {
    ProductSign(s.fl, f((s.xl + s.xu) / 2.0));
  }

  /**
   * A pass that does not return replaces exactly one end by the midpoint:
   * the upper end when f(xl) * f(xr) < 0, the lower end (with fl := f(xr))
   * when f(xl) * f(xr) > 0. So the bracket is nested in the old one, has
   * half its width, and keeps the bracket invariant.
   */
  lemma StepKeepsBracket(f: real -> real, s: State, eps: real)
    requires 0.0 < eps && Bracketed(f, s)
    requires eps <= Step(f, s, eps).ea
    ensures var t := Step(f, s, eps);
      && Bracketed(f, t)
      && t.xr == (s.xl + s.xu) / 2.0
      && s.fl * f(t.xr) != 0.0
      && (s.fl * f(t.xr) < 0.0 ==> t.xl == s.xl && t.fl == s.fl && t.xu == t.xr)
      && (s.fl * f(t.xr) > 0.0 ==> t.xl == t.xr && t.fl == f(t.xr) && t.xu == s.xu)
      && t.xu - t.xl == (s.xu - s.xl) / 2.0
  {
    var xr := (s.xl + s.xu) / 2.0;
    var fr := f(xr);
    ProductSign(s.fl, fr);
    ProductSign(s.fl, f(s.xu));
    ProductSign(s.fl, f(xr));
    ProductSign(fr, f(s.xu));
  }

  /** A pass that returns returns a point of the current bracket. */
  lemma StepReturnsInBracket(f: real -> real, s: State, eps: real)
    requires 0.0 < eps && s.xl <= s.xu
    ensures s.xl <= Step(f, s, eps).xr <= s.xu
  {
  }

  /** Each root returned by the loop lies in the bracket it started from. */
  lemma {:induction false} RunInBracket(f: real -> real, s: State, eps: real, n: nat)
    requires 0.0 < eps && Bracketed(f, s)
    ensures Run(f, s, eps, n).Root? ==> s.xl <= Run(f, s, eps, n).x <= s.xu
    decreases n
  {
    if n > 0 {
      var t := Step(f, s, eps);
      StepReturnsInBracket(f, s, eps);
      if eps <= t.ea {
        StepKeepsBracket(f, s, eps);
        RunInBracket(f, t, eps, n - 1);
      }
    }
  }

  /** The loop never raises: it returns a root or the NaN sentinel. */
  lemma {:induction false} RunNeverFails(f: real -> real, s: State, eps: real, n: nat)
    requires 0.0 < eps
    ensures !Run(f, s, eps, n).Error?
    decreases n
  {
    if n > 0 && eps <= Step(f, s, eps).ea {
      RunNeverFails(f, Step(f, s, eps), eps, n - 1);
    }
  }

  /** The loop returns the NaN sentinel exactly when none of its n passes meets ea < eps. */
  lemma {:induction false} RunNoRootIff(f: real -> real, s: State, eps: real, n: nat)
    requires 0.0 < eps
    ensures Run(f, s, eps, n) == NoRoot <==> forall k :: 1 <= k <= n ==> eps <= Iterate(f, s, eps, k).ea
    decreases n
  {
    if n > 0 {
      var t := Step(f, s, eps);
      assert Iterate(f, s, eps, 1) == t;
      RunNoRootIff(f, t, eps, n - 1);
      forall k | 1 <= k <= n
        ensures Iterate(f, s, eps, k) == Iterate(f, t, eps, k - 1)
      {
      }
      if t.ea < eps {
        assert Iterate(f, s, eps, 1).ea < eps;
        assert Run(f, s, eps, n) != NoRoot;
      } else if Run(f, s, eps, n) == NoRoot {
        assert Run(f, t, eps, n - 1) == NoRoot;
        forall k | 1 <= k <= n
          ensures eps <= Iterate(f, s, eps, k).ea
        {
          if k > 1 {
            assert Iterate(f, s, eps, k) == Iterate(f, t, eps, k - 1);
            assert eps <= Iterate(f, t, eps, k - 1).ea;
          }
        }
      } else {
        assert !forall k :: 1 <= k <= n - 1 ==> eps <= Iterate(f, t, eps, k).ea;
        var k :| 1 <= k <= n - 1 && Iterate(f, t, eps, k).ea < eps;
        assert Iterate(f, s, eps, k + 1) == Iterate(f, t, eps, k);
        assert Iterate(f, s, eps, k + 1).ea < eps;
        assert !(forall k :: 1 <= k <= n ==> eps <= Iterate(f, s, eps, k).ea);
        assert Run(f, s, eps, n) != NoRoot;
      }
    }
  }

  /** Pass k is the first of the passes from s to meet ea < eps. */
  predicate FirstConverged(f: real -> real, s: State, eps: real, k: nat)
    requires 0.0 < eps
  {
    && 1 <= k
    && Iterate(f, s, eps, k).ea < eps
    && forall j :: 1 <= j < k ==> eps <= Iterate(f, s, eps, j).ea
  }

  /**
   * A root returned by the loop is the xr of the first pass that met ea < eps:
   * the midpoint, or xl when that pass has fl * fr == 0 and |fl| < eps.
   */
  lemma {:induction false} RunRootIsFirstConverged(f: real -> real, s: State, eps: real, n: nat)
    requires 0.0 < eps && Run(f, s, eps, n).Root?
    ensures exists k: nat :: k <= n && FirstConverged(f, s, eps, k) && Run(f, s, eps, n).x == Iterate(f, s, eps, k).xr
    decreases n
  {
    var t := Step(f, s, eps);
    assert Iterate(f, s, eps, 1) == t;
    if t.ea < eps {
      assert FirstConverged(f, s, eps, 1);
    } else {
      RunRootIsFirstConverged(f, t, eps, n - 1);
      var k: nat :| k <= n - 1 && FirstConverged(f, t, eps, k) && Run(f, t, eps, n - 1).x == Iterate(f, t, eps, k).xr;
      assert Iterate(f, s, eps, k + 1) == Iterate(f, t, eps, k);
      forall j | 1 <= j < k + 1
        ensures eps <= Iterate(f, s, eps, j).ea
      {
        if j > 1 {
          assert Iterate(f, s, eps, j) == Iterate(f, t, eps, j - 1);
        }
      }
      assert FirstConverged(f, s, eps, k + 1);
    }
  }

  /** rootBisection raises exactly on a reversed interval or equal sign bits, and every root it returns lies in [xl, xu]. */
  lemma BisectionOfOutcomes(f: real -> real, xl: real, xu: real, eps: real, digits: nat)
    requires 0.0 < eps
    ensures var r := BisectionOf(f, xl, xu, eps, digits);
      && (r == Error(IntervalReversed) <==> xl > xu)
      && (r == Error(SameSign) <==> xl <= xu && SignBit(f(xl)) == SignBit(f(xu)))
      && (r.Error? ==> r == Error(IntervalReversed) || r == Error(SameSign))
      && (r.Root? ==> xl <= r.x <= xu)
  {
    if xl <= xu && SignBit(f(xl)) != SignBit(f(xu)) {
      ValidatedIsBracketed(f, xl, xu);
      RunNeverFails(f, Start(f, xl, xu), eps, Budget(digits));
      RunInBracket(f, Start(f, xl, xu), eps, Budget(digits));
    }
  }

  /**
   * One pass of the C++ loop body, up to the test `ea < eps`: it halves the
   * bracket on the sign of cond = fl * fr (Roots.ProductSign relates that to
   * the signs of the factors), computing Step.
   */
  method Bisect(f: real -> real, xl: real, xu: real, fl: real, xr: real, ea: real, eps: real) returns (t: State)
    requires 0.0 < eps
    ensures t == Step(f, State(xl, xu, fl, xr, ea), eps)
  {
    var xl, xu, fl, xr, ea := xl, xu, fl, xr, ea;
    var xold := xr;
    xr := (xl + xu) / 2.0;
    var fr := f(xr);
    var cond := fl * fr;
    if Abs(xr) > eps {
      ea := RelErr(xr, xold);
    }
    ProductSign(fl, fr);
    if cond < 0.0 {
      xu := xr;
    } else if cond > 0.0 {
      xl := xr;
      fl := fr;
    } else {
      ea := 0.0;
      xr := if Abs(fl) < eps then xl else xr;
    }
    return State(xl, xu, fl, xr, ea);
  }

  /**
   * The C++ loop of rootBisection. It returns the function's result, raises
   * exactly on a reversed interval or equal sign bits, and returns roots of
   * [xl, xu] only. Both ends are evaluated before either check; each pass
   * evaluates f once more.
   */
  method RootBisection(f: real -> real, xl: real, xu: real, eps: real, digits: nat)
    returns (r: Result, ghost passes: nat, ghost evals: nat)
    requires 0.0 < eps
    ensures r == BisectionOf(f, xl, xu, eps, digits)
    ensures r == Error(IntervalReversed) <==> xl > xu
    ensures r == Error(SameSign) <==> xl <= xu && SignBit(f(xl)) == SignBit(f(xu))
    ensures r.Root? ==> xl <= r.x <= xu
    ensures r.Error? ==> passes == 0 && evals == 2
    ensures !r.Error? ==> 1 <= passes <= Budget(digits) || (passes == 0 && Budget(digits) == 0)
    ensures !r.Error? ==> evals == 2 + passes
    ensures r.NoRoot? ==> passes == Budget(digits)
  {
    BisectionOfOutcomes(f, xl, xu, eps, digits);
    ghost var lower, upper := xl, xu;
    var xl, xu := xl, xu;
    var fl := f(xl);
    var fu := f(xu);
    passes, evals := 0, 2;
    if xl > xu {
      return Error(IntervalReversed), passes, evals;
    }
    if SignBit(fl) == SignBit(fu) {
      return Error(SameSign), passes, evals;
    }
    ValidatedIsBracketed(f, xl, xu);
    ghost var start := Start(f, xl, xu);
    assert BisectionOf(f, lower, upper, eps, digits) == Run(f, start, eps, Budget(digits));
    var xr := xl;
    var ea := 0.0;
    var maxi := digits;
    maxi := maxi * maxi;
    var i := maxi;
    while i > 0
      invariant 0 <= i <= maxi == Budget(digits)
      invariant Bracketed(f, State(xl, xu, fl, xr, ea))
      invariant Run(f, State(xl, xu, fl, xr, ea), eps, i) == Run(f, start, eps, maxi)
      invariant passes == maxi - i && evals == 2 + passes
    {
      ghost var s := State(xl, xu, fl, xr, ea);
      RunUnfold(f, s, eps, i);
      var t := Bisect(f, xl, xu, fl, xr, ea, eps);
      xl, xu, fl, xr, ea := t.xl, t.xu, t.fl, t.xr, t.ea;
      passes, evals := passes + 1, evals + 1;
      if ea < eps {
        return Root(xr), passes, evals;
      }
      StepKeepsBracket(f, s, eps);
      i := i - 1;
    }
    RunNeverFails(f, start, eps, maxi);
    return NoRoot, passes, evals;
  }
}
