/**
 * anpi::rootRidder, after Numerical Recipes' zriddr: a bracketing method
 * that evaluates f at the midpoint of the bracket and extrapolates with a
 * square-root term, then re-brackets on the sign of the new value. Its
 * failures are thrown rather than reported as NaN: an unbracketed start,
 * more than 60 passes, and the "never get here" case of the re-bracketing,
 * which the lemmas below show cannot occur.
 */
module Ridder {
  import opened Roots

  /** MAXIT: the fixed iteration cap. */
  const MaxIt: nat := 60

  /** The initial value of the estimate `ans`, which the loop can return before it has set ans itself. */
  const Unset: real := -9.99e99

  /** The Numerical Recipes macro SIGN(a, b): the magnitude of a with the sign of b (b = 0 counting as positive). */
  function Sign(a: real, b: real): (r: real)
    ensures Abs(r) == Abs(a)
    ensures 0.0 <= b ==> 0.0 <= r
    ensures b < 0.0 ==> r <= 0.0
  {
    if b >= 0.0 then Abs(a) else -Abs(a)
  }

  /** For a non-zero b, SIGN(a, b) differs from a exactly when a and b have strictly opposite signs. */
  lemma SignDiffers(a: real, b: real)
    requires b != 0.0
    ensures Sign(a, b) != a <==> Opposite(a, b)
  {
  }

  /** The loop variables: the two bracket ends xl, xh (in no particular order), fl and fh caching f there, and the latest estimate ans. */
  datatype State = State(xl: real, fl: real, xh: real, fh: real, ans: real)

  /** The bracket invariant: both caches hold and f has strictly opposite signs at the two ends. */
  predicate Bracketed(f: real -> real, s: State)
  {
    s.fl == f(s.xl) && s.fh == f(s.xh) && Opposite(s.fl, s.fh)
  }

  /** The midpoint xm = 0.5 * (xl + xh). */
  function Mid(s: State): real
  {
    0.5 * (s.xl + s.xh)
  }

  /** The argument fm * fm - fl * fh of the square root. */
  function Discriminant(fm: real, fl: real, fh: real): real
  {
    fm * fm - fl * fh
  }

  /** The extrapolated estimate xm + (xm - xl) * ((fl >= fh ? 1 : -1) * fm / s). */
  function Extrapolate(xl: real, fl: real, fh: real, xm: real, fm: real, sq: real): real
    requires sq != 0.0
  {
    xm + (xm - xl) * ((if fl >= fh then 1.0 else -1.0) * fm / sq)
  }

  /** The outcome of one pass: the loop returns or throws, or it goes on from a new state. */
  datatype Outcome = Exit(r: Result) | Next(s: State)

  /** After re-bracketing: return ans if the bracket is already within eps, else go on. */
  function Rebracketed(t: State, eps: real): Outcome
  {
    if Abs(t.xh - t.xl) <= eps then Exit(Root(t.ans)) else Next(t)
  }

  /** One pass of the loop body of rootRidder. */
  function Step(f: real -> real, sqrt: real -> real, s: State, eps: real): Outcome
  {
    var xm := Mid(s);
    var fm := f(xm);
    var sq := sqrt(Discriminant(fm, s.fl, s.fh));
    if sq == 0.0 then Exit(Root(s.ans))
    else
      var xnew := Extrapolate(s.xl, s.fl, s.fh, xm, fm, sq);
      if Abs(xnew - s.ans) <= eps then Exit(Root(s.ans))
      else
        var fnew := f(xnew);
        if fnew == 0.0 then Exit(Root(xnew))
        else if Sign(fm, fnew) != fm then Rebracketed(State(xm, fm, xnew, fnew, xnew), eps)
        else if Sign(s.fl, fnew) != s.fl then Rebracketed(State(s.xl, s.fl, xnew, fnew, xnew), eps)
        else if Sign(s.fh, fnew) != s.fh then Rebracketed(State(xnew, fnew, s.xh, s.fh, xnew), eps)
        else Exit(Error(NeverGetHere))
  }

  /** What the loop returns from s with n passes left; running out throws. */
  function Run(f: real -> real, sqrt: real -> real, s: State, eps: real, n: nat): Result
    decreases n
  {
    if n == 0 then Error(MaxIterations)
    else
      match Step(f, sqrt, s, eps)
      case Exit(r) => r
      case Next(t) => Run(f, sqrt, t, eps, n - 1)
  }

  /** One unfolding of Run, for the loop of RootRidder. */
  lemma RunUnfold(f: real -> real, sqrt: real -> real, s: State, eps: real, n: nat)
    requires 0 < n
    ensures Step(f, sqrt, s, eps).Exit? ==> Run(f, sqrt, s, eps, n) == Step(f, sqrt, s, eps).r
    ensures Step(f, sqrt, s, eps).Next? ==> Run(f, sqrt, s, eps, n) == Run(f, sqrt, Step(f, sqrt, s, eps).s, eps, n - 1)
  {
  }

  /** rootRidder(f, xi, xii, eps) with the platform square root. */
  function RidderOf(f: real -> real, sqrt: real -> real, xi: real, xii: real, eps: real): Result
  {
    var fl := f(xi);
    var fh := f(xii);
    if Opposite(fl, fh) then Run(f, sqrt, State(xi, fl, xii, fh, Unset), eps, MaxIt)
    else if fl == 0.0 then Root(xi)
    else if fh == 0.0 then Root(xii)
    else Error(NotBracketed)
  }

  /**
   * Re-bracketing keeps the invariant: when fnew is not 0, one of the three
   * branches fires, and the pair it keeps again has strictly opposite
   * signs; its ends are drawn from xl, xm, the new estimate and xh.
   */
  lemma StepKeepsBracket(f: real -> real, sqrt: real -> real, s: State, eps: real)
    requires Bracketed(f, s)
    ensures Step(f, sqrt, s, eps) != Exit(Error(NeverGetHere))
    ensures Step(f, sqrt, s, eps).Next? ==>
      var t := Step(f, sqrt, s, eps).s;
      && Bracketed(f, t)
      && (t.xl == s.xl || t.xl == Mid(s) || t.xl == t.ans)
      && (t.xh == s.xh || t.xh == t.ans)
      && eps < Abs(t.xh - t.xl)
  {
    var xm := Mid(s);
    var fm := f(xm);
    var sq := sqrt(Discriminant(fm, s.fl, s.fh));
    if sq != 0.0 {
      var xnew := Extrapolate(s.xl, s.fl, s.fh, xm, fm, sq);
      var fnew := f(xnew);
      if fnew != 0.0 {
        SignDiffers(fm, fnew);
        SignDiffers(s.fl, fnew);
        SignDiffers(s.fh, fnew);
      }
    }
  }

  /** With strictly opposite signs at the ends, the argument of the square root is strictly positive. */
  lemma DiscriminantPositive(fm: real, fl: real, fh: real)
    requires Opposite(fl, fh)
    ensures fm * fm < Discriminant(fm, fl, fh)
  {
    ProductSign(fl, fh);
    ProductSign(fm, fm);
  }

  /**
   * Under a true square root and a strict bracket, the square root s is
   * positive, so the breakdown exit `s == 0` is never taken, and s exceeds
   * |fm|, so |fm / s| < 1.
   */
  lemma SqrtExceedsMidValue(sqrt: real -> real, fm: real, fl: real, fh: real)
    requires IsSqrt(sqrt) && Opposite(fl, fh)
    ensures var sq := sqrt(Discriminant(fm, fl, fh));
      0.0 < sq && Abs(fm) < sq
  {
    var d := Discriminant(fm, fl, fh);
    DiscriminantPositive(fm, fl, fh);
    var sq := sqrt(d);
    assert 0.0 <= sq && sq * sq == d;
    var a := Abs(fm);
    assert a * a == fm * fm;
    SquareMonotone(a, sq);
  }

  /** Between non-negative values, a smaller square means a smaller value. */
  lemma SquareMonotone(a: real, b: real)
    requires 0.0 <= a && 0.0 <= b && a * a < b * b
    ensures a < b
  {
    if b <= a {
      ProductSign(a - b, a + b);
    }
  }

  /** Under a true square root and a strict bracket, the extrapolated estimate lies between the two ends. */
  lemma ExtrapolateBetween(f: real -> real, sqrt: real -> real, s: State)
    requires IsSqrt(sqrt) && Opposite(s.fl, s.fh)
    ensures var xm := Mid(s); var fm := f(xm); var sq := sqrt(Discriminant(fm, s.fl, s.fh));
      sq != 0.0 && Between(Extrapolate(s.xl, s.fl, s.fh, xm, fm, sq), s.xl, s.xh)
  {
    var xm := Mid(s);
    var fm := f(xm);
    var sq := sqrt(Discriminant(fm, s.fl, s.fh));
    SqrtExceedsMidValue(sqrt, fm, s.fl, s.fh);
    var dir := if s.fl >= s.fh then 1.0 else -1.0;
    var q := dir * fm / sq;
    assert Abs(dir * fm) == Abs(fm);
    QuotientBelowOne(dir * fm, sq);
    var d := xm - s.xl;
    assert Extrapolate(s.xl, s.fl, s.fh, xm, fm, sq) == xm + d * q;
    ScaledOffset(d, q);
  }

  /** |a / b| < 1 when |a| < b. */
  lemma QuotientBelowOne(a: real, b: real)
    requires 0.0 < b && Abs(a) < b
    ensures Abs(a / b) < 1.0
  {
    var q := a / b;
    assert b * q == a;
    ProductSign(b, 1.0 - q);
    assert b * (1.0 - q) == b - a;
    ProductSign(b, 1.0 + q);
    assert b * (1.0 + q) == b + a;
  }

  /** |d * q| <= |d| when |q| <= 1. */
  lemma ScaledOffset(d: real, q: real)
    requires Abs(q) <= 1.0
    ensures -Abs(d) <= d * q <= Abs(d)
  {
    var e := Abs(d);
    assert e * q == d * q || e * q == -(d * q);
    ProductSign(e, 1.0 - q);
    assert e * (1.0 - q) == e - e * q;
    ProductSign(e, 1.0 + q);
    assert e * (1.0 + q) == e + e * q;
  }

  /**
   * Under a true square root, a pass from a strict bracket goes on with a
   * bracket nested in the old one (so the width never grows) and an
   * estimate inside it.
   */
  lemma StepNested(f: real -> real, sqrt: real -> real, s: State, eps: real)
    requires IsSqrt(sqrt) && Bracketed(f, s)
    ensures Step(f, sqrt, s, eps).Next? ==>
      var t := Step(f, sqrt, s, eps).s;
      Between(t.xl, s.xl, s.xh) && Between(t.xh, s.xl, s.xh) && Between(t.ans, s.xl, s.xh)
      && Abs(t.xh - t.xl) <= Abs(s.xh - s.xl)
    ensures Step(f, sqrt, s, eps).Exit? && Step(f, sqrt, s, eps).r.Root? ==>
      var x := Step(f, sqrt, s, eps).r.x;
      x == s.ans || Between(x, s.xl, s.xh)
  {
    ExtrapolateBetween(f, sqrt, s);
    StepKeepsBracket(f, sqrt, s, eps);
  }

  /**
   * The loop never reaches "never get here" and never yields NaN: it returns
   * a root, or throws on running out of passes (the NaN return after the
   * C++ loop is unreachable).
   */
  lemma {:induction false} RunNeverBroken(f: real -> real, sqrt: real -> real, s: State, eps: real, n: nat)
    requires Bracketed(f, s)
    ensures Run(f, sqrt, s, eps, n).Error? ==> Run(f, sqrt, s, eps, n) == Error(MaxIterations)
    ensures Run(f, sqrt, s, eps, n) != NoRoot
    decreases n
  {
    if n > 0 {
      StepKeepsBracket(f, sqrt, s, eps);
      if Step(f, sqrt, s, eps).Next? {
        RunNeverBroken(f, sqrt, Step(f, sqrt, s, eps).s, eps, n - 1);
      }
    }
  }

  /** Under a true square root, every root the loop returns lies between a and b, when the bracket and the estimate do, or is the unset initial estimate. */
  lemma {:induction false} RunRootInBracket(f: real -> real, sqrt: real -> real, s: State, eps: real, n: nat, a: real, b: real)
    requires IsSqrt(sqrt) && Bracketed(f, s)
    requires Between(s.xl, a, b) && Between(s.xh, a, b) && (s.ans == Unset || Between(s.ans, a, b))
    ensures Run(f, sqrt, s, eps, n).Root? ==> Between(Run(f, sqrt, s, eps, n).x, a, b) || Run(f, sqrt, s, eps, n).x == Unset
    decreases n
  {
    if n > 0 {
      StepNested(f, sqrt, s, eps);
      if Step(f, sqrt, s, eps).Next? {
        var t := Step(f, sqrt, s, eps).s;
        StepKeepsBracket(f, sqrt, s, eps);
        RunRootInBracket(f, sqrt, t, eps, n - 1, a, b);
      }
    }
  }

  /** rootRidder never returns NaN, raises only "not bracketed" and "maximum iterations", never "never get here", and its roots lie in the bracket or are the unset estimate -9.99e99. */
  lemma RidderOfOutcomes(f: real -> real, sqrt: real -> real, xi: real, xii: real, eps: real)
    ensures var r := RidderOf(f, sqrt, xi, xii, eps);
      && r != NoRoot
      && (r.Error? ==> r == Error(NotBracketed) || r == Error(MaxIterations))
      && (r == Error(NotBracketed) <==> !Opposite(f(xi), f(xii)) && f(xi) != 0.0 && f(xii) != 0.0)
      && (IsSqrt(sqrt) && r.Root? ==> Between(r.x, xi, xii) || r.x == Unset)
  {
    var fl, fh := f(xi), f(xii);
    if Opposite(fl, fh) {
      var s := State(xi, fl, xii, fh, Unset);
      RunNeverBroken(f, sqrt, s, eps, MaxIt);
      if IsSqrt(sqrt) {
        RunRootInBracket(f, sqrt, s, eps, MaxIt, xi, xii);
      }
    }
  }

  /**
   * The unset estimate is returned in practice: for any f with f(-1) = -1,
   * f(0) = 0 and f(1) = 1 (such as f(x) = x) on [-1, 1] with eps = 1e100,
   * the first extrapolation gives 0, which is within eps of -9.99e99, so the
   * call returns -9.99e99, far outside the bracket and not a zero of f.
   */
  lemma UnsetReturned(f: real -> real, sqrt: real -> real)
    requires IsSqrt(sqrt)
    requires f(-1.0) == -1.0 && f(0.0) == 0.0 && f(1.0) == 1.0
    ensures RidderOf(f, sqrt, -1.0, 1.0, 1.0e100) == Root(Unset)
  {
    SqrtOfOne(sqrt);
    FirstPassReturnsUnset(f, sqrt);
  }

  /** The first pass of that example: it needs of the square root only that sqrt(1) is not 0. */
  lemma FirstPassReturnsUnset(f: real -> real, sqrt: real -> real)
    requires sqrt(1.0) != 0.0
    requires f(-1.0) == -1.0 && f(0.0) == 0.0 && f(1.0) == 1.0
    ensures Step(f, sqrt, State(-1.0, -1.0, 1.0, 1.0, Unset), 1.0e100) == Exit(Root(Unset))
  {
    var s := State(-1.0, -1.0, 1.0, 1.0, Unset);
    assert Mid(s) == 0.0;
    assert Discriminant(0.0, -1.0, 1.0) == 1.0;
    var sq := sqrt(1.0);
    var xnew := Extrapolate(s.xl, s.fl, s.fh, 0.0, 0.0, sq);
    assert xnew == 0.0 by {
      assert 0.0 / sq == 0.0;
    }
  }

  /** A true square root of 1 is not 0. */
  lemma SqrtOfOne(sqrt: real -> real)
    requires IsSqrt(sqrt)
    ensures sqrt(1.0) != 0.0
  {
    assert sqrt(1.0) * sqrt(1.0) == 1.0;
  }

  /**
   * One pass of the C++ loop body, from the midpoint to the width test. It
   * yields what Step does: the value the pass returns, or the re-bracketed
   * state; from a strict bracket the "never get here" branch is unreachable
   * (the `assert false` below).
   */
  method Pass(f: real -> real, sqrt: real -> real, xl: real, fl: real, xh: real, fh: real, ans: real, eps: real)
    returns (out: Outcome)
    requires Opposite(fl, fh)
    ensures out == Step(f, sqrt, State(xl, fl, xh, fh, ans), eps)
    ensures out.Exit? ==> out.r.Root?
  {
    ghost var cur := State(xl, fl, xh, fh, ans);
    var xl, fl, xh, fh, ans := xl, fl, xh, fh, ans;
    var xm := 0.5 * (xl + xh);
    var fm := f(xm);
    var s := sqrt(Discriminant(fm, fl, fh));
    if s == 0.0 {
      return Exit(Root(ans));
    }
    var xnew := Extrapolate(xl, fl, fh, xm, fm, s);
    if Abs(xnew - ans) <= eps {
      return Exit(Root(ans));
    }
    ans := xnew;
    var fnew := f(ans);
    if fnew == 0.0 {
      return Exit(Root(ans));
    }
    if Sign(fm, fnew) != fm {
      xl := xm;
      fl := fm;
      xh := ans;
      fh := fnew;
    } else if Sign(fl, fnew) != fl {
      xh := ans;
      fh := fnew;
    } else if Sign(fh, fnew) != fh {
      xl := ans;
      fl := fnew;
    } else {
      assert false;
    }
    if Abs(xh - xl) <= eps {
      return Exit(Root(ans));
    }
    return Next(State(xl, fl, xh, fh, ans));
  }

  /**
   * The C++ loop of rootRidder. It returns the function's result; it raises
   * "not bracketed" exactly when f(xi), f(xii) are not of strictly opposite
   * signs and neither is 0; it returns an exact-zero end at once; it never
   * raises "never get here" and never returns NaN; it throws "maximum
   * iterations" only after all MAXIT passes; and under a true square root
   * its roots lie in the bracket or are the unset estimate.
   */
  method RootRidder(f: real -> real, sqrt: real -> real, xi: real, xii: real, eps: real)
    returns (r: Result, ghost passes: nat)
    ensures r == RidderOf(f, sqrt, xi, xii, eps)
    ensures r != NoRoot
    ensures passes <= MaxIt
    ensures r == Error(MaxIterations) ==> passes == MaxIt
    ensures r == Error(NotBracketed) <==> !Opposite(f(xi), f(xii)) && f(xi) != 0.0 && f(xii) != 0.0
    ensures !Opposite(f(xi), f(xii)) && f(xi) == 0.0 ==> r == Root(xi)
    ensures !Opposite(f(xi), f(xii)) && f(xi) != 0.0 && f(xii) == 0.0 ==> r == Root(xii)
    ensures r.Error? ==> r == Error(NotBracketed) || r == Error(MaxIterations)
    ensures IsSqrt(sqrt) && r.Root? ==> Between(r.x, xi, xii) || r.x == Unset
  {
    RidderOfOutcomes(f, sqrt, xi, xii, eps);
    passes := 0;
    var fl := f(xi);
    var fh := f(xii);
    if (fl > 0.0 && fh < 0.0) || (fl < 0.0 && fh > 0.0) {
      var xl := xi;
      var xh := xii;
      var ans := Unset;
      ghost var start := State(xl, fl, xh, fh, ans);
      for j := 0 to MaxIt
        invariant Bracketed(f, State(xl, fl, xh, fh, ans))
        invariant Run(f, sqrt, State(xl, fl, xh, fh, ans), eps, MaxIt - j) == Run(f, sqrt, start, eps, MaxIt)
        invariant passes == j
      {
        ghost var cur := State(xl, fl, xh, fh, ans);
        RunUnfold(f, sqrt, cur, eps, MaxIt - j);
        StepKeepsBracket(f, sqrt, cur, eps);
        var out := Pass(f, sqrt, xl, fl, xh, fh, ans, eps);
        passes := passes + 1;
        if out.Exit? {
          return out.r, passes;
        }
        xl, fl, xh, fh, ans := out.s.xl, out.s.fl, out.s.xh, out.s.fh, out.s.ans;
      }
      return Error(MaxIterations), passes;
    } else {
      if fl == 0.0 {
        return Root(xi), passes;
      }
      if fh == 0.0 {
        return Root(xii), passes;
      }
      return Error(NotBracketed), passes;
    }
  }
}
