/**
 * anpi::rootSecant: an open method. From the two positions xi and xii it
 * steps to where the chord through (xi, f(xi)) and (xii, f(xii)) crosses
 * zero, shifts the two-point history and stops when the relative change
 * falls below eps. It has no bracket and raises no error of its own.
 */
module Secant {
  import opened Roots

  /** The loop variables: the current and the previous position, fi caching f(xi) (the C++ `f`), fii caching f(xii) (the C++ `fl`), and the latest relative error ea. */
  datatype State = State(xi: real, xii: real, fi: real, fii: real, ea: real)

  /** Both cached values are f at their positions. */
  predicate Cached(f: real -> real, s: State)
  {
    s.fi == f(s.xi) && s.fii == f(s.xii)
  }

  /** The loop starts from the two positions, evaluating f at xii, then at xi, with ea = 0. */
  function Start(f: real -> real, xi: real, xii: real): State
  {
    State(xi, xii, f(xi), f(xii), 0.0)
  }

  /**
   * One pass, up to but not including the test `ea < eps`: the secant step
   * dx = (xii - xi) * f / (f - fl), then xii := xi, fl := f, xi := xi + dx,
   * f := funct(xi), and ea updated when |xi| > eps.
   */
  function Step(f: real -> real, s: State, eps: real): State
    requires 0.0 < eps && s.fi != s.fii
  {
    var xi := s.xi + SecantDx(s.xi, s.xii, s.fi, s.fii);
    var ea := if Abs(xi) > eps then RelErr(xi, s.xi) else s.ea;
    State(xi, s.xi, f(xi), s.fi, ea)
  }

  /** The secant correction dx = (xii - xi) * f / (f - fl). */
  function SecantDx(xi: real, xii: real, fi: real, fii: real): real
    requires fi != fii
  {
    (xii - xi) * fi / (fi - fii)
  }

  /**
   * A pass shifts the history back by one and keeps both caches; its new
   * position is the zero of the chord through (xi, f(xi)) and (xii, f(xii)).
   */
  lemma StepShiftsHistory(f: real -> real, s: State, eps: real)
    requires 0.0 < eps && s.fi != s.fii && Cached(f, s)
    ensures var t := Step(f, s, eps);
      && Cached(f, t) && t.xii == s.xi && t.fii == s.fi
      && s.fi * (s.xi - s.xii) + (t.xi - s.xi) * (s.fi - s.fii) == 0.0
  {
    var dx := SecantDx(s.xi, s.xii, s.fi, s.fii);
    var num, den := (s.xii - s.xi) * s.fi, s.fi - s.fii;
    assert dx * den == num;
    assert s.fi * (s.xi - s.xii) == -num;
    assert Step(f, s, eps).xi - s.xi == dx;
  }

  /** The iteration budget: digits passes, not squared. */
  function Budget(digits: nat): nat
  {
    digits
  }

  /**
   * What the loop returns from s with n passes left. With a zero denominator
   * f == fl the C++ step is infinite or NaN, every later position is
   * non-finite, and the call ends in NaN: here that is NoRoot at once.
   */
  function Run(f: real -> real, s: State, eps: real, n: nat): Result
    requires 0.0 < eps
    decreases n
  {
    if n == 0 then NoRoot
    else if s.fi == s.fii then NoRoot
    else
      var t := Step(f, s, eps);
      if t.ea < eps then Root(t.xi) else Run(f, t, eps, n - 1)
  }

  /** rootSecant(f, xi, xii, eps) for a type with `digits` mantissa bits. */
  function SecantOf(f: real -> real, xi: real, xii: real, eps: real, digits: nat): Result
    requires 0.0 < eps
  {
    Run(f, Start(f, xi, xii), eps, Budget(digits))
  }

  /** The secant loop never raises: it returns a root or the NaN sentinel. */
  lemma {:induction false} RunNeverFails(f: real -> real, s: State, eps: real, n: nat)
    requires 0.0 < eps
    ensures !Run(f, s, eps, n).Error?
    decreases n
  {
    if n > 0 && s.fi != s.fii && eps <= Step(f, s, eps).ea {
      RunNeverFails(f, Step(f, s, eps), eps, n - 1);
    }
  }

  /** A pass from p goes on to the next pass: the chord has a zero and the new relative error is not below eps. */
  predicate GoesOn(f: real -> real, p: State, eps: real)
    requires 0.0 < eps
  {
    p.fi != p.fii && eps <= Step(f, p, eps).ea
  }

  /** The state after k passes from s that went on (it stays at the state where the loop stopped). */
  function Reached(f: real -> real, s: State, eps: real, k: nat): State
    requires 0.0 < eps
    decreases k
  {
    if k == 0 || !GoesOn(f, s, eps) then s else Reached(f, Step(f, s, eps), eps, k - 1)
  }

  /** Each of the first k passes from s went on, so the loop is at the start of pass k + 1. */
  predicate Reaches(f: real -> real, s: State, eps: real, k: nat)
    requires 0.0 < eps
  {
    forall j :: 0 <= j < k ==> GoesOn(f, Reached(f, s, eps, j), eps)
  }

  /** The pass from p returns x: the chord has a zero x, and the relative error after the step is below eps. */
  predicate ConvergesFrom(f: real -> real, p: State, eps: real, x: real)
    requires 0.0 < eps
  {
    p.fi != p.fii && Step(f, p, eps).ea < eps && x == Step(f, p, eps).xi
  }

  /** A pass that goes on moves the reached states one place. */
  lemma ReachedShift(f: real -> real, s: State, eps: real, k: nat)
    requires 0.0 < eps && GoesOn(f, s, eps)
    ensures Reached(f, s, eps, k + 1) == Reached(f, Step(f, s, eps), eps, k)
    ensures Reaches(f, s, eps, k + 1) <==> Reaches(f, Step(f, s, eps), eps, k)
  {
    var t := Step(f, s, eps);
    forall j | 1 <= j <= k + 1
      ensures Reached(f, s, eps, j) == Reached(f, t, eps, j - 1)
    {
    }
    assert Reached(f, s, eps, 0) == s;
  }

  /** Once pass k + 1 has gone on, the state it reached is the step from the state before it. */
  lemma {:induction false} ReachedLast(f: real -> real, s: State, eps: real, k: nat)
    requires 0.0 < eps && Reaches(f, s, eps, k + 1)
    ensures GoesOn(f, Reached(f, s, eps, k), eps)
    ensures Reached(f, s, eps, k + 1) == Step(f, Reached(f, s, eps, k), eps)
    decreases k
  {
    assert Reached(f, s, eps, 0) == s;
    assert GoesOn(f, s, eps);
    var t := Step(f, s, eps);
    if k > 0 {
      ReachedShift(f, s, eps, k);
      ReachedShift(f, s, eps, k - 1);
      ReachedLast(f, t, eps, k - 1);
    }
  }

  /** The loop returns x exactly when it reaches a pass that ends at x with a relative error below eps. */
  lemma {:induction false} RunRootIff(f: real -> real, s: State, eps: real, n: nat, x: real)
    requires 0.0 < eps
    ensures Run(f, s, eps, n) == Root(x) <==>
      exists k :: 0 <= k < n && Reaches(f, s, eps, k) && ConvergesFrom(f, Reached(f, s, eps, k), eps, x)
    decreases n
  {
    if n > 0 {
      assert Reached(f, s, eps, 0) == s;
      if GoesOn(f, s, eps) {
        var t := Step(f, s, eps);
        RunRootIff(f, t, eps, n - 1, x);
        if exists k :: 0 <= k < n && Reaches(f, s, eps, k) && ConvergesFrom(f, Reached(f, s, eps, k), eps, x) {
          var k :| 0 <= k < n && Reaches(f, s, eps, k) && ConvergesFrom(f, Reached(f, s, eps, k), eps, x);
          ReachedShift(f, s, eps, k - 1);
          assert Reaches(f, t, eps, k - 1) && ConvergesFrom(f, Reached(f, t, eps, k - 1), eps, x);
        }
        if Run(f, t, eps, n - 1) == Root(x) {
          var k :| 0 <= k < n - 1 && Reaches(f, t, eps, k) && ConvergesFrom(f, Reached(f, t, eps, k), eps, x);
          ReachedShift(f, s, eps, k);
        }
      } else {
        forall k | 0 < k < n
          ensures !Reaches(f, s, eps, k)
        {
          assert !GoesOn(f, Reached(f, s, eps, 0), eps);
        }
        if s.fi != s.fii && Step(f, s, eps).ea < eps && x == Step(f, s, eps).xi {
          assert Reaches(f, s, eps, 0);
        }
      }
    }
  }

  /**
   * A root returned by the loop passed the test ea < eps of the pass k that
   * returned it: when |x| > eps, the relative change in percent from the
   * position that pass started at, Reached(k).xi, is below eps; otherwise ea
   * was not updated, which can happen only on the first pass (k == 0), with
   * the initial ea below eps.
   */
  lemma RunRootPassedTest(f: real -> real, s: State, eps: real, n: nat, x: real)
    requires 0.0 < eps
    requires Run(f, s, eps, n) == Root(x)
    ensures exists k :: (
      && 0 <= k < n && Reaches(f, s, eps, k) && ConvergesFrom(f, Reached(f, s, eps, k), eps, x)
      && (Abs(x) > eps ==> RelErr(x, Reached(f, s, eps, k).xi) < eps)
      && (Abs(x) <= eps ==> k == 0 && s.ea < eps))
  {
    RunRootIff(f, s, eps, n, x);
    var k :| 0 <= k < n && Reaches(f, s, eps, k) && ConvergesFrom(f, Reached(f, s, eps, k), eps, x);
    if k > 0 {
      ReachedLast(f, s, eps, k - 1);
    }
    assert Reached(f, s, eps, 0) == s;
  }

  /** While ea still holds its initial 0, a first position within eps of 0 is returned at once: ea is not updated and 0 < eps. */
  lemma SmallFirstIterateReturned(f: real -> real, s: State, eps: real, n: nat)
    requires 0.0 < eps && s.ea == 0.0 && 0 < n && s.fi != s.fii
    requires Abs(Step(f, s, eps).xi) <= eps
    ensures Run(f, s, eps, n) == Root(Step(f, s, eps).xi)
  {
  }

  /**
   * The C++ loop of rootSecant. It returns the function's result and never
   * raises; f is evaluated twice before the loop and once per pass, and
   * the loop makes at most digits passes.
   */
  method RootSecant(f: real -> real, xi: real, xii: real, eps: real, digits: nat)
    returns (r: Result, ghost passes: nat, ghost evals: nat)
    requires 0.0 < eps
    ensures r == SecantOf(f, xi, xii, eps, digits)
    ensures !r.Error?
    ensures passes <= Budget(digits) && evals == 2 + passes
    ensures r.Root? ==> 1 <= passes
  {
    ghost var start := Start(f, xi, xii);
    var xi, xii := xi, xii;
    var fl := f(xii);
    var fx := f(xi);
    passes, evals := 0, 2;
    var maxi := digits;
    var ea := 0.0;
    for j := 0 to maxi
      invariant Cached(f, State(xi, xii, fx, fl, ea))
      invariant Run(f, State(xi, xii, fx, fl, ea), eps, maxi - j) == Run(f, start, eps, maxi)
      invariant passes == j && evals == 2 + passes
    {
      if fx == fl {
        RunNeverFails(f, start, eps, maxi);
        return NoRoot, passes, evals;
      }
      ghost var t := Step(f, State(xi, xii, fx, fl, ea), eps);
      var dx := SecantDx(xi, xii, fx, fl);
      xii := xi;
      fl := fx;
      xi := xi + dx;
      fx := f(xi);
      passes, evals := passes + 1, evals + 1;
      if Abs(xi) > eps {
        ea := RelErr(xi, xii);
      }
      assert State(xi, xii, fx, fl, ea) == t;
      if ea < eps {
        return Root(xi), passes, evals;
      }
    }
    RunNeverFails(f, start, eps, maxi);
    return NoRoot, passes, evals;
  }
}
