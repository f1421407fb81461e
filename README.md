# Scalar root finders of the anpi library, in Dafny

This project models the five scalar root finders of the `anpi` numerical
analysis library (`code/include`): `rootBisection`, `rootRidder`,
`rootSecant`, `rootNewtonRaphson` and the hybrid `rootBrent`. Each takes a
function `funct`, a starting point or bracket and a tolerance `eps`. Each
returns a root, returns NaN (rootRidder: throws) when it finds none within
its iteration budget, or throws.

Each solver has its own module. `Roots` holds the vocabulary they share:
- `Result = Root(x) | NoRoot | Error(kind)`, where `NoRoot` stands for the NaN sentinel and `Error` for a thrown exception;
- the error kinds;
- `Abs`, `SignBit` and the relative error `RelErr`, which is `|(x - xold) / x| * 100`;
- sign predicates for the products `fl * fr` that the loops test.

Every module has the same layers:
- a `State` datatype holding the loop variables;
- a `Step` function for one pass of the loop body;
- a recursive `Run` (in Brent, `Primary`) giving what the loop returns with `n` passes left;
- a top-level function `BisectionOf`, `SecantOf`, `NewtonOf`, `RidderOf` or `BrentOf`;
- an imperative method `RootBisection`, `RootSecant`, `RootNewtonRaphson`, `RootRidder` or `RootBrent` that follows the C++ loop statement by statement.

The open methods (Secant, NewtonRaphson) and Brent's interpolation loop also share one proof pattern, written out on purpose in each module because each has its own `State`. It has five members: `GoesOn` (a pass that goes on), `Reached` (the state after k such passes), `Reaches`, `ConvergesFrom` (a pass that returns x) and `ReachedShift`. Their `...RootIff` lemmas are built on it.

Each method is proved to return its top-level function's value. The loop invariant is that the remaining run from the current variables equals the whole run. The lemmas state what the source promises about those functions. In four modules, one pass of the loop body is its own method: `Bisection.Bisect`, `NewtonRaphson.Iterate` (with `NewtonRaphson.Advance` for the update), `Ridder.Pass`, `Brent.Interpolate`. Each is proved to compute its module's pass function. Each of the five `RootX` methods has a ghost out-parameter `passes` counting the passes made; `RootBisection`, `RootSecant` and `RootBrent` also count the calls of `funct` in a ghost `evals`.

Inputs of the model:
- Arithmetic is over `real`. `T` in the C++ is a real number.
- `funct` is any total pure `real -> real`.
- The iteration budgets come from a parameter `digits`, which is `std::numeric_limits<T>::digits` (24 for float, 53 for double).
- `std::sqrt` is a parameter `sqrt`. Properties that depend on it assume `Roots.IsSqrt(sqrt)`: for `x >= 0`, `sqrt(x) >= 0` and `sqrt(x) * sqrt(x) == x`.

## Model

| member | source | states |
|---|---|---|
| Roots.RelErr | code/include/RootBisection.hpp:58-60 | the relative error in percent is non-negative, and it is 0 exactly when the iterate did not move |
| Roots.ProductSign | code/include/RootBisection.hpp:57-69 | the sign of `fl * fr` tested by the loops is decided by the signs of the two factors: negative iff strictly opposite, zero iff a factor is zero, positive iff strictly the same sign |
| Roots.BelowSqrt | code/include/RootNewtonRaphson.hpp:55 | under a true square root, Newton's test `ea < sqrt(eps)` is `ea * ea < eps` |
| Bisection.Start | code/include/RootBisection.hpp:39-49 | defines the state entering the loop: the bracket, `fl == f(xl)`, `xr == xl`, `ea == 0` |
| Bisection.Step | code/include/RootBisection.hpp:54-69 | defines one pass up to the test `ea < eps`: midpoint, relative error when `abs(xr) > eps`, and the three-way branch on the sign of `fl * fr` |
| Bisection.Iterate | code/include/RootBisection.hpp:53-73 | defines the state after k passes that did not return |
| Bisection.Run | code/include/RootBisection.hpp:53-75 | defines what the loop returns with n passes left: the first `xr` with `ea < eps`, else NaN |
| Bisection.BisectionOf | code/include/RootBisection.hpp:37-76 | defines rootBisection: the two checks, then the loop from Start with digits² passes |
| Bisection.ValidatedIsBracketed | code/include/RootBisection.hpp:39-47 | an interval that passes both checks starts the loop with ordered ends, `fl == f(xl)` and `f(xl) * f(xu) <= 0` |
| Bisection.ZeroProductReturns | code/include/RootBisection.hpp:66-71 | when `fl * fr == 0` the pass sets `ea` to 0 and returns in that pass: `xl` if `abs(fl) < eps`, else the midpoint |
| Bisection.StepKeepsBracket | code/include/RootBisection.hpp:53-69 | a pass that does not return has `fl * fr != 0` and keeps the bracket invariant; if `fl * fr < 0` the midpoint replaces `xu` and `xl`, `fl` stay; if `fl * fr > 0` it replaces `xl` with `fl == f(xr)` and `xu` stays; the width halves |
| Bisection.StepReturnsInBracket | code/include/RootBisection.hpp:55-68 | the value a pass can return lies in the current bracket |
| Bisection.RunInBracket | code/include/RootBisection.hpp:53-73 | every root the loop returns lies in the bracket it started from |
| Bisection.RunNeverFails | code/include/RootBisection.hpp:53-75 | the loop never throws: it returns a root or NaN |
| Bisection.RunNoRootIff | code/include/RootBisection.hpp:53-75 | the loop returns NaN if and only if, after each of the n passes, `ea >= eps` |
| Bisection.RunRootIsFirstConverged | code/include/RootBisection.hpp:70-72 | a returned root is the `xr` of the first pass after which `ea < eps`: the midpoint, or `xl` when that pass has `fl * fr == 0` and `abs(fl) < eps` |
| Bisection.BisectionOfOutcomes | code/include/RootBisection.hpp:39-75 | rootBisection throws "Interval reversed" iff `xl > xu`; it throws "Signos iguales" iff the interval is ordered and the sign bits of `f(xl)`, `f(xu)` agree; it throws nothing else; its roots lie in `[xl, xu]` |
| Bisection.Bisect | code/include/RootBisection.hpp:54-69 | the C++ loop body, with `cond = fl * fr`, computes one pass |
| Bisection.RootBisection | code/include/RootBisection.hpp:37-76 | the C++ function returns rootBisection's value, with both error conditions as iffs and roots in `[xl, xu]`; after an error `f` was evaluated exactly twice; otherwise `2 + passes` times, for at most digits² passes; NaN only after all digits² passes |
| Secant.Start | code/include/RootSecant.hpp:34-37 | defines the state entering the loop: `f == f(xi)`, `fl == f(xii)`, `ea == 0` |
| Secant.Step | code/include/RootSecant.hpp:39-47 | defines one pass up to the test `ea < eps`: the secant step, the history shift, and the relative error when `abs(xi) > eps` |
| Secant.Run | code/include/RootSecant.hpp:38-52 | defines what the loop returns with n passes left (NaN at once on a zero denominator `f == fl`) |
| Secant.SecantOf | code/include/RootSecant.hpp:33-53 | defines rootSecant: the loop from Start with digits passes |
| Secant.Reached | code/include/RootSecant.hpp:38-52 | defines the state at the start of pass k + 1, after k passes that went on |
| Secant.StepShiftsHistory | code/include/RootSecant.hpp:39-43 | a pass shifts the history (`xii` takes the old `xi`, `fl` the old `f`), keeps both caches, and moves to the zero of the chord through the two points |
| Secant.RunNeverFails | code/include/RootSecant.hpp:38-52 | rootSecant never throws |
| Secant.RunRootIff | code/include/RootSecant.hpp:38-52 | the loop returns x if and only if some pass k < n is reached and ends at x with `ea < eps` |
| Secant.RunRootPassedTest | code/include/RootSecant.hpp:38-49 | a returned root x comes from a reached pass k whose start position is `Reached(k).xi`; if `abs(x) > eps`, the relative change from that position is below eps; otherwise k is the first pass and the initial `ea` is below eps |
| Secant.SmallFirstIterateReturned | code/include/RootSecant.hpp:37-49 | while `ea` is 0, a first iterate with `abs(xi) <= eps` is returned at once |
| Secant.RootSecant | code/include/RootSecant.hpp:33-53 | the C++ function returns rootSecant's value and never throws; `f` is evaluated `2 + passes` times; at most digits passes |
| NewtonRaphson.Start | code/include/RootNewtonRaphson.hpp:37-42 | defines the state entering the loop: `f == f(xi)`, the central difference at `xi`, `ea == 0` |
| NewtonRaphson.CentralDiff | code/include/RootNewtonRaphson.hpp:38-39 | defines the derivative estimate `(f(x + h) - f(x - h)) / (2h)` with h = 0.1 |
| NewtonRaphson.Step | code/include/RootNewtonRaphson.hpp:44-54 | defines the update after the derivative check: `xi - f / df`, the relative error when `abs(xi) > eps`, and both caches at the new `xi` |
| NewtonRaphson.Iteration | code/include/RootNewtonRaphson.hpp:44-57 | defines one whole pass: the derivative error, a root that passes both tests, or the next state |
| NewtonRaphson.Run | code/include/RootNewtonRaphson.hpp:43-61 | defines what the loop returns with n passes left |
| NewtonRaphson.NewtonOf | code/include/RootNewtonRaphson.hpp:36-62 | defines rootNewtonRaphson: the loop from Start with digits³ passes |
| NewtonRaphson.Reached | code/include/RootNewtonRaphson.hpp:43-58 | defines the state at the start of pass k + 1, after k passes that went on |
| NewtonRaphson.StepFollowsTangent | code/include/RootNewtonRaphson.hpp:48-54 | the update `xi - f / df` is the zero of the line through `(xi, f(xi))` with slope `df`; after it both caches hold at the new `xi` |
| NewtonRaphson.RunRootResidual | code/include/RootNewtonRaphson.hpp:55-57 | every returned root has residual `abs(f(x)) < eps` |
| NewtonRaphson.RunRootIff | code/include/RootNewtonRaphson.hpp:43-58 | the loop returns x if and only if some pass k < n is reached whose derivative is not below eps and whose new iterate x passes both tests |
| NewtonRaphson.ConvergedStepTest | code/include/RootNewtonRaphson.hpp:48-57 | a pass from iterate p that returns x has `abs(f(x)) < eps`; under a true square root, if `abs(x) > eps` the relative change from `p.xi`, squared, is below eps, and otherwise the kept `ea`, squared, is |
| NewtonRaphson.ReachedErrorNonNegative | code/include/RootNewtonRaphson.hpp:42-52 | from a start with `ea >= 0`, every reached state has `ea >= 0`, because `ea` starts at 0 and a pass either keeps it or sets it to a relative error |
| NewtonRaphson.RunRootPassedTest | code/include/RootNewtonRaphson.hpp:43-58 | a root x returned by the loop comes from a reached pass k with `abs(f(x)) < eps`; under a true square root, if `abs(x) > eps` the relative change from that pass's starting iterate, squared, is below eps, and otherwise the `ea` kept from before the pass, squared, is |
| NewtonRaphson.RunRaisesIff | code/include/RootNewtonRaphson.hpp:43-47 | the only error is "Division sobre 0", and the loop raises it if and only if some pass k < n is reached with `abs(df) < eps` |
| NewtonRaphson.NewtonOfOutcomes | code/include/RootNewtonRaphson.hpp:36-62 | rootNewtonRaphson's roots have residual below eps and its only error is the vanishing derivative |
| NewtonRaphson.Advance | code/include/RootNewtonRaphson.hpp:48-54 | the C++ loop body after the derivative check computes one pass |
| NewtonRaphson.Iterate | code/include/RootNewtonRaphson.hpp:44-57 | one pass of the C++ loop ends as `Iteration` says: the derivative error, a root whose residual is below eps, or the next state with both caches consistent |
| NewtonRaphson.RootNewtonRaphson | code/include/RootNewtonRaphson.hpp:36-62 | the C++ function returns rootNewtonRaphson's value; roots have residual below eps; the only error is the vanishing derivative; at most digits³ passes (the one that raises included), and NaN only after all of them |
| Ridder.Extrapolate | code/include/RootRidder.hpp:46 | defines `xnew = xm + (xm - xl) * ((fl >= fh ? 1 : -1) * fm / s)` |
| Ridder.Step | code/include/RootRidder.hpp:42-63 | defines one pass: the returns at `s == 0`, at `abs(xnew - ans) <= eps` and at `fnew == 0`, the three re-bracketing cases and "never get here", and the width test |
| Ridder.Run | code/include/RootRidder.hpp:41-65 | defines what the loop returns with n passes left, throwing "exceed maximum iterations" when none are left |
| Ridder.RidderOf | code/include/RootRidder.hpp:33-73 | defines rootRidder: the loop with MAXIT = 60 passes from a strict bracket, else the exact-zero ends or "root must be bracketed" |
| Ridder.Sign | code/include/RootRidder.hpp:51-59 | SIGN(a, b) has the magnitude of a and the sign of b, 0 counting as positive |
| Ridder.SignDiffers | code/include/RootRidder.hpp:51-62 | for `fnew != 0`, `SIGN(a, fnew) != a` iff a and fnew have strictly opposite signs |
| Ridder.StepKeepsBracket | code/include/RootRidder.hpp:50-63 | from a strict bracket a pass never reaches "never get here"; a pass that goes on again has a strict bracket with both caches; its ends come from `{xl, xm, ans, xh}`; its width exceeds eps |
| Ridder.DiscriminantPositive | code/include/RootRidder.hpp:44 | with strictly opposite `fl`, `fh`, the square-root argument `fm*fm - fl*fh` exceeds `fm*fm` |
| Ridder.SqrtExceedsMidValue | code/include/RootRidder.hpp:44-46 | under a true square root, `s > 0` (the exit `s == 0` is not taken) and `s > abs(fm)` |
| Ridder.QuotientBelowOne | code/include/RootRidder.hpp:46 | the general fact that `abs(a / b) < 1` when `0 < b` and `abs(a) < b`; `ExtrapolateBetween` applies it to the factor `(±1) * fm / s` |
| Ridder.ExtrapolateBetween | code/include/RootRidder.hpp:42-46 | under a true square root, `xnew` lies between `xl` and `xh` |
| Ridder.StepNested | code/include/RootRidder.hpp:42-63 | under a true square root, the next bracket and estimate lie within the current bracket, so the width never grows; a pass returns the previous `ans` or a point of the bracket |
| Ridder.RunNeverBroken | code/include/RootRidder.hpp:41-72 | from a strict bracket the loop throws only "exceed maximum iterations", never "never get here", and never yields NaN |
| Ridder.RunRootInBracket | code/include/RootRidder.hpp:40-64 | under a true square root, every root the loop returns lies in the original bracket or is the unset initial `ans` |
| Ridder.RidderOfOutcomes | code/include/RootRidder.hpp:33-73 | rootRidder never returns NaN (the return after the loop is unreachable); it throws only "root must be bracketed" or "exceed maximum iterations"; it throws "root must be bracketed" iff `f(xi)`, `f(xii)` are not strictly opposite and neither is 0; under a true square root its roots lie in `[xi, xii]` or are -9.99e99 |
| Ridder.UnsetReturned | code/include/RootRidder.hpp:40-47 | the -9.99e99 exit is reachable: for f(x) = x on [-1, 1] with eps = 1e100, rootRidder returns -9.99e99 |
| Ridder.FirstPassReturnsUnset | code/include/RootRidder.hpp:42-47 | in that example, the first pass gives `xnew = 0` and returns the unset `ans` |
| Ridder.Pass | code/include/RootRidder.hpp:42-63 | the C++ loop body computes one pass, and from a strict bracket a pass that ends the loop returns a root: it never reaches the "never get here" throw |
| Ridder.RootRidder | code/include/RootRidder.hpp:33-73 | the C++ function returns rootRidder's value; the error "root must be bracketed" is an iff; an exact-zero end is returned at once, `xi` first; it never throws "never get here" and never returns NaN; at most MAXIT passes, and "exceed maximum iterations" only after all 60; under a true square root, roots lie in `[xi, xii]` or are -9.99e99 |
| Brent.Seed | code/include/RootBrent.hpp:48-55 | defines the first three points: `xl`, the midpoint `(xl + xu) / 2` and `xu`, each evaluated, with `ea == 0` |
| Brent.Lagrange | code/include/RootBrent.hpp:58 | defines the C++ estimate `xN` as the sum of its three terms |
| Brent.Step | code/include/RootBrent.hpp:58-67 | defines one pass up to the test: `xN`, the relative error against `x3` when `abs(xN) > eps`, and the shift of the points |
| Brent.Primary | code/include/RootBrent.hpp:57-72 | defines what the interpolation loop yields with n passes left |
| Brent.Fallback | code/include/RootBrent.hpp:73-83 | defines the fallback: rootSecant from `(xl, xu)`, then rootBisection on `[xl, xu]` if that gives NaN |
| Brent.BrentOf | code/include/RootBrent.hpp:36-84 | defines rootBrent: the two checks, the interpolation loop from Seed with digits² passes, then the fallback |
| Brent.Denom | code/include/RootBrent.hpp:58 | each Lagrange denominator is non-zero when the y values are pairwise distinct |
| Brent.BasisAtNodes | code/include/RootBrent.hpp:58 | each basis polynomial of the inverse quadratic is 1 at its own node and 0 at the two others |
| Brent.InverseQuadraticInterpolates | code/include/RootBrent.hpp:58 | the inverse quadratic passes through the three points `(y_k, x_k)` |
| Brent.TermAtZero | code/include/RootBrent.hpp:58 | each C++ term of `xN` is `x_k` times its basis polynomial at y = 0 |
| Brent.LagrangeIsInverseQuadraticAtZero | code/include/RootBrent.hpp:58 | the C++ estimate `xN` is the value at y = 0 of the inverse quadratic through the three points |
| Brent.StepShifts | code/include/RootBrent.hpp:58-67 | a pass drops `(x1, y1)`, shifts the other two points down, appends `(xN, f(xN))` and keeps the three caches |
| Brent.PrimaryRootResidual | code/include/RootBrent.hpp:57-72 | the interpolation loop yields a root or NaN, and its roots have residual below eps |
| Brent.Reached | code/include/RootBrent.hpp:57-72 | defines the state at the start of pass k + 1, after k interpolation passes that went on |
| Brent.PrimaryRootIff | code/include/RootBrent.hpp:57-72 | the interpolation loop returns x if and only if some pass k < n is reached whose y values are distinct and whose new point x passes both tests |
| Brent.PrimaryRootPassedTest | code/include/RootBrent.hpp:55-71 | a root x of the interpolation loop is the `xN` of a reached pass k, and `abs(f(x)) < eps`; if `abs(x) > eps` the relative change from the `x3` that pass started with is below eps, and otherwise the `ea` kept from before the pass is below eps |
| Brent.BrentOfOutcomes | code/include/RootBrent.hpp:38-83 | rootBrent throws exactly when rootBisection does, with the same error; a root has residual below eps, or is rootSecant's root, or is rootBisection's root in `[xl, xu]`; NaN iff the loop, rootSecant and rootBisection all yield NaN |
| Brent.Interpolate | code/include/RootBrent.hpp:58-67 | the C++ loop body up to its test computes one pass |
| Brent.RootBrent | code/include/RootBrent.hpp:36-84 | the C++ function returns rootBrent's value; both error conditions are iffs, raised after two calls of `f`; at most digits² interpolation passes; roots are those of the interpolation loop (residual below eps), of rootSecant or of rootBisection (in `[xl, xu]`) |

## Left out

- IEEE-754 arithmetic: rounding (the midpoint is exactly half), overflow, NaN as a value and `-0.0`. `SignBit` is `v < 0`, so 0 counts as non-negative.
- The NaN returns are the `NoRoot` outcome. Exceptions are `Error` outcomes: anpi::Exception in Bisection, Brent and Newton-Raphson, and the C-string throws in Ridder. The exception types themselves are not modelled.
- Secant.Run: the C++ step `(xii - xi) * f / (f - fl)` has no guard for `f == fl`. In IEEE arithmetic the result is then infinite or NaN and the call ends in NaN. The model returns `NoRoot` at once instead, and `RootSecant` tests `fx == fl` to match.
- Brent.Primary: the Lagrange formula has no guard for equal y values. There the model leaves the interpolation loop and goes straight to the fallback chain, and `RootBrent` tests `Distinct` to match. This treats the C++'s non-finite iterates as never passing the test, which holds when `funct` maps non-finite arguments to non-finite values.
- Bisection, Secant, Newton-Raphson, Brent: their methods require `0 < eps`, so the guard `abs(x) > eps` before each relative error keeps x away from 0. With `eps < 0` the guard lets x = 0 through and the C++ divides by zero. With `eps == 0` the guard does exclude x = 0, but that case is still left out: the model takes the tolerance to be strictly positive.
- `std::sqrt` is a parameter. The square-root facts used are stated through `IsSqrt`, and `sqrt` of a negative argument is left unconstrained.
- Newton-Raphson: the loop counter is of type `T` and the budget is `pow(digits, 3)`. Both are modelled as the exact natural number digits³.
- The numbers the two budgets depend on: `std::numeric_limits<T>::digits` is the parameter `digits`.
- The `std::cout` messages in rootBrent (bisection fallback) and rootNewtonRaphson (no root found). They are output only.
- Convergence to a true zero of `funct` (continuity, rates) is not stated. The model states what the code returns, not whether that is near a root.
- The benchmark harness, the call-counting wrapper, plotting, `RootInterpolation.hpp`, `Exception.hpp`, `PlotPy.hpp` and `Allocator.hpp` are not part of this model. The counters `passes` and `evals` stand in for the call counts.
- NewtonRaphson.RootNewtonRaphson: keeps only the pass counter; the evaluations of `f` (three before the loop and three per pass, visible in Start and Advance) are not counted separately.
