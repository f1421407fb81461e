/**
 * anpi::rootNewtonRaphson: an open method from one initial guess. The
 * derivative is the central difference with step h = 0.1; the loop raises
 * when that derivative is below eps in magnitude, and it returns only when
 * both the relative change is below sqrt(eps) and the residual |f(xi)| is
 * below eps.
 */
module NewtonRaphson {
  import opened Roots

  /** The finite-difference step h. */
  const H: real := 0.1

  /** The central-difference derivative (f(x + h) - f(x - h)) / (2h). */
  function CentralDiff(f: real -> real, x: real): real
  {
    (f(x + H) - f(x - H)) / (2.0 * H)
  }

  /** The loop variables: the iterate xi, fx caching f(xi) (the C++ `f`), df caching the derivative at xi, and the latest relative error ea. */
  datatype State = State(xi: real, fx: real, df: real, ea: real)

  /** Both cached values belong to the current iterate. */
  predicate Cached(f: real -> real, s: State)
  {
    s.fx == f(s.xi) && s.df == CentralDiff(f, s.xi)
  }

  /** The loop starts from the guess, with f and the derivative evaluated there (three calls of f) and ea = 0. */
  function Start(f: real -> real, xi: real): State
  {
    State(xi, f(xi), CentralDiff(f, xi), 0.0)
  }

  /** The iteration budget: digits cubed passes. */
  function Budget(digits: nat): nat
  {
    digits * digits * digits
  }

  /** The Newton correction f / df. */
  function Correction(fx: real, df: real): real
    requires df != 0.0
  {
    fx / df
  }

  /**
   * One pass after the derivative check, up to but not including the
   * convergence test: xi := xi - f / df, ea updated when |xi| > eps, then f
   * and df re-evaluated at the new xi.
   */
  function Step(f: real -> real, s: State, eps: real): State
    requires 0.0 < eps && s.df != 0.0
  {
    var xi := s.xi - Correction(s.fx, s.df);
    var ea := if Abs(xi) > eps then RelErr(xi, s.xi) else s.ea;
    State(xi, f(xi), CentralDiff(f, xi), ea)
  }

  /** The C++ stopping test: ea < sqrt(eps) and |f(xi)| < eps. */
  predicate Converged(sqrt: real -> real, t: State, eps: real)
  {
    t.ea < sqrt(eps) && Abs(t.fx) < eps
  }

  /** How a pass of the loop ends: with the function's result, or with the state for the next pass. */
  datatype Outcome = Exit(r: Result) | Next(s: State)

  /** One whole pass: the derivative check, the update, and the convergence test. */
  function Iteration(f: real -> real, sqrt: real -> real, s: State, eps: real): Outcome
    requires 0.0 < eps
  {
    if Abs(s.df) < eps then Exit(Error(DerivativeVanishing))
    else
      var t := Step(f, s, eps);
      if Converged(sqrt, t, eps) then Exit(Root(t.xi)) else Next(t)
  }

  /** What the loop returns from s with n passes left. */
  function Run(f: real -> real, sqrt: real -> real, s: State, eps: real, n: nat): Result
    requires 0.0 < eps
    decreases n
  {
    if n == 0 then NoRoot
    else
      match Iteration(f, sqrt, s, eps)
      case Exit(r) => r
      case Next(t) => Run(f, sqrt, t, eps, n - 1)
  }

  /** rootNewtonRaphson(f, xi, eps) for a type with `digits` mantissa bits and the platform square root. */
  function NewtonOf(f: real -> real, sqrt: real -> real, xi: real, eps: real, digits: nat): Result
    requires 0.0 < eps
  {
    Run(f, sqrt, Start(f, xi), eps, Budget(digits))
  }

  /**
   * A pass moves to the zero of the line through (xi, f(xi)) with the
   * estimated slope df, and leaves both caches consistent at the new iterate.
   */
  lemma StepFollowsTangent(f: real -> real, s: State, eps: real)
    requires 0.0 < eps && s.df != 0.0
    ensures var t := Step(f, s, eps);
      && Cached(f, t)
      && s.fx + s.df * (t.xi - s.xi) == 0.0
  {
    var c := Correction(s.fx, s.df);
    assert c * s.df == s.fx;
  }

  /** Every root the loop returns has residual |f(x)| < eps. */
  lemma {:induction false} RunRootResidual(f: real -> real, sqrt: real -> real, s: State, eps: real, n: nat)
    requires 0.0 < eps
    ensures Run(f, sqrt, s, eps, n).Root? ==> Abs(f(Run(f, sqrt, s, eps, n).x)) < eps
    decreases n
  {
    if n > 0 && Abs(s.df) >= eps {
      var t := Step(f, s, eps);
      StepFollowsTangent(f, s, eps);
      if !Converged(sqrt, t, eps) {
        RunRootResidual(f, sqrt, t, eps, n - 1);
      }
    }
  }

  /** A pass from p goes on to the next pass: the derivative is not below eps and the new iterate fails the stopping test. */
  predicate GoesOn(f: real -> real, sqrt: real -> real, p: State, eps: real)
    requires 0.0 < eps
  {
    eps <= Abs(p.df) && !Converged(sqrt, Step(f, p, eps), eps)
  }

  /** The state after k passes from s that went on (it stays at the state where the loop stopped). */
  function Reached(f: real -> real, sqrt: real -> real, s: State, eps: real, k: nat): State
    requires 0.0 < eps
    decreases k
  {
    if k == 0 || !GoesOn(f, sqrt, s, eps) then s else Reached(f, sqrt, Step(f, s, eps), eps, k - 1)
  }

  /** Each of the first k passes from s went on, so the loop is at the start of pass k + 1. */
  predicate Reaches(f: real -> real, sqrt: real -> real, s: State, eps: real, k: nat)
    requires 0.0 < eps
  {
    forall j :: 0 <= j < k ==> GoesOn(f, sqrt, Reached(f, sqrt, s, eps, j), eps)
  }

  /** The pass from p returns x: the derivative is not below eps, and the new iterate x passes both tests. */
  predicate ConvergesFrom(f: real -> real, sqrt: real -> real, p: State, eps: real, x: real)
    requires 0.0 < eps
  {
    eps <= Abs(p.df) && Converged(sqrt, Step(f, p, eps), eps) && x == Step(f, p, eps).xi
  }

  /** A pass that goes on moves the reached states one place. */
  lemma ReachedShift(f: real -> real, sqrt: real -> real, s: State, eps: real, k: nat)
    requires 0.0 < eps && GoesOn(f, sqrt, s, eps)
    ensures Reached(f, sqrt, s, eps, k + 1) == Reached(f, sqrt, Step(f, s, eps), eps, k)
    ensures Reaches(f, sqrt, s, eps, k + 1) <==> Reaches(f, sqrt, Step(f, s, eps), eps, k)
  {
    var t := Step(f, s, eps);
    forall j | 1 <= j <= k + 1
      ensures Reached(f, sqrt, s, eps, j) == Reached(f, sqrt, t, eps, j - 1)
    {
    }
    assert Reached(f, sqrt, s, eps, 0) == s;
  }

  /**
   * The loop raises "Division sobre 0" exactly when it reaches a pass whose
   * derivative is below eps in magnitude, and that is the only error it
   * raises.
   */
  lemma {:induction false} RunRaisesIff(f: real -> real, sqrt: real -> real, s: State, eps: real, n: nat)
    requires 0.0 < eps
    ensures Run(f, sqrt, s, eps, n).Error? ==> Run(f, sqrt, s, eps, n) == Error(DerivativeVanishing)
    ensures Run(f, sqrt, s, eps, n) == Error(DerivativeVanishing) <==>
      exists k :: 0 <= k < n && Reaches(f, sqrt, s, eps, k) && Abs(Reached(f, sqrt, s, eps, k).df) < eps
    decreases n
  {
    if n > 0 {
      assert Reached(f, sqrt, s, eps, 0) == s;
      if GoesOn(f, sqrt, s, eps) {
        var t := Step(f, s, eps);
        RunRaisesIff(f, sqrt, t, eps, n - 1);
        if exists k :: 0 <= k < n && Reaches(f, sqrt, s, eps, k) && Abs(Reached(f, sqrt, s, eps, k).df) < eps {
          var k :| 0 <= k < n && Reaches(f, sqrt, s, eps, k) && Abs(Reached(f, sqrt, s, eps, k).df) < eps;
          ReachedShift(f, sqrt, s, eps, k - 1);
          assert Reaches(f, sqrt, t, eps, k - 1) && Abs(Reached(f, sqrt, t, eps, k - 1).df) < eps;
        }
        if Run(f, sqrt, t, eps, n - 1) == Error(DerivativeVanishing) {
          var k :| 0 <= k < n - 1 && Reaches(f, sqrt, t, eps, k) && Abs(Reached(f, sqrt, t, eps, k).df) < eps;
          ReachedShift(f, sqrt, s, eps, k);
        }
      } else {
        forall k | 0 < k < n
          ensures !Reaches(f, sqrt, s, eps, k)
        {
          assert !GoesOn(f, sqrt, Reached(f, sqrt, s, eps, 0), eps);
        }
        if Abs(s.df) < eps {
          assert Reaches(f, sqrt, s, eps, 0);
        }
      }
    }
  }

  /** The loop returns x exactly when it reaches a pass that ends with x passing both tests. */
  lemma {:induction false} RunRootIff(f: real -> real, sqrt: real -> real, s: State, eps: real, n: nat, x: real)
    requires 0.0 < eps
    ensures Run(f, sqrt, s, eps, n) == Root(x) <==>
      exists k :: 0 <= k < n && Reaches(f, sqrt, s, eps, k) && ConvergesFrom(f, sqrt, Reached(f, sqrt, s, eps, k), eps, x)
    decreases n
  {
    if n > 0 {
      assert Reached(f, sqrt, s, eps, 0) == s;
      if GoesOn(f, sqrt, s, eps) {
        var t := Step(f, s, eps);
        RunRootIff(f, sqrt, t, eps, n - 1, x);
        if exists k :: 0 <= k < n && Reaches(f, sqrt, s, eps, k) && ConvergesFrom(f, sqrt, Reached(f, sqrt, s, eps, k), eps, x) {
          var k :| 0 <= k < n && Reaches(f, sqrt, s, eps, k) && ConvergesFrom(f, sqrt, Reached(f, sqrt, s, eps, k), eps, x);
          ReachedShift(f, sqrt, s, eps, k - 1);
          assert Reaches(f, sqrt, t, eps, k - 1) && ConvergesFrom(f, sqrt, Reached(f, sqrt, t, eps, k - 1), eps, x);
        }
        if Run(f, sqrt, t, eps, n - 1) == Root(x) {
          var k :| 0 <= k < n - 1 && Reaches(f, sqrt, t, eps, k) && ConvergesFrom(f, sqrt, Reached(f, sqrt, t, eps, k), eps, x);
          ReachedShift(f, sqrt, s, eps, k);
        }
      } else {
        forall k | 0 < k < n
          ensures !Reaches(f, sqrt, s, eps, k)
        {
          assert !GoesOn(f, sqrt, Reached(f, sqrt, s, eps, 0), eps);
        }
        if ConvergesFrom(f, sqrt, s, eps, x) {
          assert Reaches(f, sqrt, s, eps, 0);
        } else if Abs(s.df) >= eps {
          assert Run(f, sqrt, s, eps, n) == Root(Step(f, s, eps).xi);
        }
      }
    }
  }

  /**
   * A pass that returns x met both tests of the C++ loop against its own
   * starting iterate p: |f(x)| < eps, and, under a true square root, the
   * relative change from p.xi, squared, is below eps when |x| > eps, while
   * otherwise the kept (non-negative) ea of p, squared, is.
   */
  lemma ConvergedStepTest(f: real -> real, sqrt: real -> real, p: State, eps: real, x: real)
    requires 0.0 < eps && IsSqrt(sqrt) && 0.0 <= p.ea
    requires ConvergesFrom(f, sqrt, p, eps, x)
    ensures Abs(f(x)) < eps
    ensures Abs(x) > eps ==> RelErr(x, p.xi) * RelErr(x, p.xi) < eps
    ensures Abs(x) <= eps ==> p.ea * p.ea < eps
  {
    if Abs(x) > eps {
      BelowSqrt(sqrt, RelErr(x, p.xi), eps);
    } else {
      BelowSqrt(sqrt, p.ea, eps);
    }
  }

  /**
   * The relative-step half of the C++ test, squared, for a pass from p that
   * ends at x: against p.xi when |x| > eps, else against the ea kept from p.
   */
  predicate SquaredStepTest(p: State, eps: real, x: real)
    requires 0.0 < eps
  {
    (Abs(x) > eps ==> RelErr(x, p.xi) * RelErr(x, p.xi) < eps) && (Abs(x) <= eps ==> p.ea * p.ea < eps)
  }

  /** A non-negative starting ea stays non-negative in every reached state: a pass either keeps ea or sets it to a relative error. */
  lemma {:induction false} ReachedErrorNonNegative(f: real -> real, sqrt: real -> real, s: State, eps: real, k: nat)
    requires 0.0 < eps && 0.0 <= s.ea
    ensures 0.0 <= Reached(f, sqrt, s, eps, k).ea
    decreases k
  {
    if k > 0 && GoesOn(f, sqrt, s, eps) {
      ReachedErrorNonNegative(f, sqrt, Step(f, s, eps), eps, k - 1);
    }
  }

  /**
   * A root x returned by the loop from a start with non-negative ea passed
   * both C++ tests in the reached pass k that returned it: |f(x)| < eps and,
   * under a true square root, the relative change from that pass's starting
   * iterate, squared, is below eps when |x| > eps; otherwise the ea kept from
   * before the pass, squared, is.
   */
  lemma RunRootPassedTest(f: real -> real, sqrt: real -> real, s: State, eps: real, n: nat, x: real)
    requires 0.0 < eps && IsSqrt(sqrt) && 0.0 <= s.ea
    requires Run(f, sqrt, s, eps, n) == Root(x)
    ensures exists k :: (
      && 0 <= k < n && Reaches(f, sqrt, s, eps, k) && ConvergesFrom(f, sqrt, Reached(f, sqrt, s, eps, k), eps, x)
      && Abs(f(x)) < eps
      && SquaredStepTest(Reached(f, sqrt, s, eps, k), eps, x))
  {
    assert exists k :: 0 <= k < n && Reaches(f, sqrt, s, eps, k) && ConvergesFrom(f, sqrt, Reached(f, sqrt, s, eps, k), eps, x) by {
      RunRootIff(f, sqrt, s, eps, n, x);
    }
    var k :| 0 <= k < n && Reaches(f, sqrt, s, eps, k) && ConvergesFrom(f, sqrt, Reached(f, sqrt, s, eps, k), eps, x);
    var p := Reached(f, sqrt, s, eps, k);
    ReachedErrorNonNegative(f, sqrt, s, eps, k);
    ConvergedStepTest(f, sqrt, p, eps, x);
    assert SquaredStepTest(p, eps, x);
    assert 0 <= k < n && Reaches(f, sqrt, s, eps, k) && ConvergesFrom(f, sqrt, p, eps, x) && Abs(f(x)) < eps;
  }

  /** rootNewtonRaphson returns only roots with residual below eps, and its only error is the vanishing derivative. */
  lemma NewtonOfOutcomes(f: real -> real, sqrt: real -> real, xi: real, eps: real, digits: nat)
    requires 0.0 < eps
    ensures var r := NewtonOf(f, sqrt, xi, eps, digits);
      && (r.Root? ==> Abs(f(r.x)) < eps)
      && (r.Error? ==> r == Error(DerivativeVanishing))
  {
    RunRootResidual(f, sqrt, Start(f, xi), eps, Budget(digits));
    RunRaisesIff(f, sqrt, Start(f, xi), eps, Budget(digits));
  }

  /**
   * The C++ loop body after the derivative check: the Newton update of xi,
   * the relative error when |xi| > eps, and f and the central difference at
   * the new xi (three calls of f), computing Step.
   */
  method Advance(f: real -> real, xi: real, fx: real, df: real, ea: real, eps: real) returns (t: State)
    requires 0.0 < eps && df != 0.0
    ensures t == Step(f, State(xi, fx, df, ea), eps)
  {
    var xi, fx, df, ea := xi, fx, df, ea;
    var xiold := xi;
    var divi := Correction(fx, df);
    xi := xi - divi;
    if Abs(xi) > eps {
      ea := RelErr(xi, xiold);
    }
    fx := f(xi);
    df := (f(xi + H) - f(xi - H)) / (2.0 * H);
    return State(xi, fx, df, ea);
  }

  /**
   * One pass of the C++ loop: it raises when the derivative is below eps in
   * magnitude, otherwise it advances and returns the iterate if both tests
   * hold.
   */
  method Iterate(f: real -> real, sqrt: real -> real, xi: real, fx: real, df: real, ea: real, eps: real)
    returns (out: Outcome)
    requires 0.0 < eps
    ensures out == Iteration(f, sqrt, State(xi, fx, df, ea), eps)
    ensures out.Next? ==> Cached(f, out.s)
    ensures out.Exit? && out.r.Root? ==> Abs(f(out.r.x)) < eps
    ensures out.Exit? && out.r.Error? ==> out.r == Error(DerivativeVanishing)
  {
    if Abs(df) < eps {
      return Exit(Error(DerivativeVanishing));
    }
    var t := Advance(f, xi, fx, df, ea, eps);
    if t.ea < sqrt(eps) && Abs(t.fx) < eps {
      return Exit(Root(t.xi));
    }
    return Next(t);
  }

  /**
   * The C++ loop of rootNewtonRaphson. It returns the function's result;
   * roots have residual below eps; the only error is the vanishing
   * derivative; it makes at most digits cubed passes, and all of them
   * before it gives up.
   */
  method RootNewtonRaphson(f: real -> real, sqrt: real -> real, xi: real, eps: real, digits: nat)
    returns (r: Result, ghost passes: nat)
    requires 0.0 < eps
    ensures r == NewtonOf(f, sqrt, xi, eps, digits)
    ensures r.Root? ==> Abs(f(r.x)) < eps
    ensures r.Error? ==> r == Error(DerivativeVanishing)
    ensures passes <= Budget(digits)
    ensures r.NoRoot? ==> passes == Budget(digits)
  {
    ghost var start := Start(f, xi);
    var xi := xi;
    var fx := f(xi);
    var df := (f(xi + H) - f(xi - H)) / (2.0 * H);
    passes := 0;
    var maxi := Budget(digits);
    var ea := 0.0;
    var j := maxi;
    while j > 0
      invariant 0 <= j <= maxi == Budget(digits)
      invariant Cached(f, State(xi, fx, df, ea))
      invariant Run(f, sqrt, State(xi, fx, df, ea), eps, j) == Run(f, sqrt, start, eps, maxi)
      invariant passes == maxi - j
    {
      var out := Iterate(f, sqrt, xi, fx, df, ea, eps);
      passes := passes + 1;
      if out.Exit? {
        return out.r, passes;
      }
      xi, fx, df, ea := out.s.xi, out.s.fx, out.s.df, out.s.ea;
      j := j - 1;
    }
    return NoRoot, passes;
  }
}
