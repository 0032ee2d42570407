# Homotopy: a Dafny model

The library builds function homotopies. A homotopy is a family of functions
h_t that deforms one real function f into another real function g as the
parameter t goes from 0 to 1. The library has two parts:

- a generic combinator `homotopy(rule, x, y)`. It binds the first two
  arguments of a three-argument rule and returns `z -> rule(x, y, z)`. Bound
  to a blending rule and two endpoint functions, it gives the family
  `t -> h_t`;
- blending rules, each of the form `(f, g, t) -> (x -> w_f(t) f(x) + w_g(t) g(x))`.
  The model covers the linear rule (weights 1 - t and t) and the quadratic
  rule (weights (1 - t)^2 and t^2).

The model is pure. The combinator is a generic Dafny function over total
arrow types, `Homotopy.Homotopy`. The rules are functions `HLinear` and
`HSquare` from two `real -> real` functions and a `real` to a `real -> real`
function. Java's `Double` is modelled as an exact `real`, and the laws are
proved for exact reals. In `double` the Java code differs in three ways:

- For finite f(x) and g(x), the endpoint laws also hold exactly in `double`,
  because multiplying by 1.0 or by 0.0 is exact.
- If the other endpoint is infinite or NaN, the endpoint laws fail outright.
  For example, with t = 1 and f(0) = +infinity, `0.0 * f(0)` is NaN, while
  the model gives g(0).
- For large |t| the weight-sum and diagonal laws fail through cancellation,
  not just rounding. At t = 1e17 with f = g = 1, `(1.0 - t) * 1 + t * 1` is
  0.0 in `double`, while `LinearWeights` and `LinearDiagonal` give 1.

Neither rule has a precondition on t, because the Java code neither checks
nor clamps it. Values of t outside [0, 1] extrapolate:
`LinearExtrapolates` and `SquareWeightsSumExterior` state what happens there.

The spec of a homotopy rule is written as two predicates:

- `IsHomotopyRule`: at t = 0 the rule yields f, and at t = 1 it yields g, pointwise.
- `IsWeightedBlend`: at t the rule combines f(x) and g(x) with weights that
  depend on t only.

The weights of a rule are read off by probing it with constant functions:
`WeightOnF` gives it f = 1 and g = 0, and `WeightOnG` gives it f = 0 and g = 1.

`homotopy_test.dfy` restates the repository's unit test (`linearTest`) as
lemmas. It uses f(x) = x^2 and g(x) = 2x + 1 and checks the points x = 0,
10 and 15.

## Model

| member | source | states |
|---|---|---|
| `Homotopy.Homotopy` | src/main/java/com/uwe_hennig/homotopy/Homotopy.java:16-18 | the bound function, applied to z, is the rule applied to x, y and z, unchanged and in that order |
| `Homotopy.Uncurry` | src/main/java/com/uwe_hennig/homotopy/Homotopy.java:16-18 | the inverse of the combinator: a two-stage function seen as a three-argument rule agrees with the stages everywhere |
| `Homotopy.UncurryHomotopy` | src/main/java/com/uwe_hennig/homotopy/Homotopy.java:16-18 | binding a rule with the combinator and then uncurrying gives back the original rule |
| `Homotopy.HomotopyUncurry` | src/main/java/com/uwe_hennig/homotopy/Homotopy.java:16-18 | uncurrying a two-stage function and then binding it gives back the same stages |
| `Homotopy.HomotopyEndpoints` | src/main/java/com/uwe_hennig/homotopy/Homotopy.java:16-18 | a family built by the combinator from any rule that meets the homotopy contract starts at f (t = 0) and ends at g (t = 1) |
| `Homotopy.WeightedBlendDiagonal` | src/main/java/com/uwe_hennig/homotopy/Homotopy.java:20-26 | a weighted blend whose two weights sum to 1 gives back any function blended with itself |
| `Homotopy.HLinear` | src/main/java/com/uwe_hennig/homotopy/Homotopy.java:20-22 | the linear rule: x => (1 - t) f(x) + t g(x), with no requires on t; its laws are stated by `LinearIsHomotopyRule`, `LinearIsLerp`, `LinearIsWeightedBlend`, `LinearBetween`, `LinearMonotone` and `LinearExtrapolates` |
| `Homotopy.LinearIsLerp` | src/main/java/com/uwe_hennig/homotopy/Homotopy.java:20-22 | the linear blend is the point a fraction t of the way from f(x) to g(x) |
| `Homotopy.LinearIsHomotopyRule` | src/main/java/com/uwe_hennig/homotopy/Homotopy.java:20-22 | the linear rule yields f at t = 0 and g at t = 1, for every f, g and x |
| `Homotopy.LinearFamilyLaws` | src/test/java/com/uwe_hennig/homotopy/HomotopyTest.java:28-43 | through the combinator, the linear family is f at t = 0, g at t = 1 and the average (f(x) + g(x)) / 2 at t = 1/2 |
| `Homotopy.LinearWeights` | src/main/java/com/uwe_hennig/homotopy/Homotopy.java:21 | the linear weights are 1 - t on f and t on g, and they sum to 1 for every t |
| `Homotopy.LinearIsWeightedBlend` | src/main/java/com/uwe_hennig/homotopy/Homotopy.java:21 | the linear rule combines f(x) and g(x) with weights that depend on t alone |
| `Homotopy.LinearDiagonal` | src/main/java/com/uwe_hennig/homotopy/Homotopy.java:21 | blending a function linearly with itself gives it back, for every t |
| `Homotopy.LinearFamilyKeepsOrder` | src/main/java/com/uwe_hennig/homotopy/Homotopy.java:16-22 | the combinator passes f and g to the rule in the order given: where f(x) differs from g(x), the families from (f, g) and from (g, f) differ at t = 0 |
| `Homotopy.LinearSymmetric` | src/main/java/com/uwe_hennig/homotopy/Homotopy.java:21 | the linear blend from f to g at t equals the blend from g to f at 1 - t |
| `Homotopy.LinearBetween` | src/main/java/com/uwe_hennig/homotopy/Homotopy.java:21 | for t in [0, 1] the linear blend at x lies between f(x) and g(x) |
| `Homotopy.LinearMonotone` | src/main/java/com/uwe_hennig/homotopy/Homotopy.java:21 | the linear blend is monotone in t: for s <= t it rises from s to t where f(x) <= g(x) and falls where g(x) <= f(x) |
| `Homotopy.LinearExtrapolates` | src/main/java/com/uwe_hennig/homotopy/Homotopy.java:20-22 | t is not clamped: where f(x) < g(x), the blend overshoots g(x) for t > 1 and undershoots f(x) for t < 0 |
| `Homotopy.LinearExtrapolatesReversed` | src/main/java/com/uwe_hennig/homotopy/Homotopy.java:20-22 | the mirror case of `LinearExtrapolates`: where g(x) < f(x), the blend undershoots g(x) for t > 1 and overshoots f(x) for t < 0 |
| `Homotopy.HSquare` | src/main/java/com/uwe_hennig/homotopy/Homotopy.java:24-26 | the quadratic rule: x => (1 - t)^2 f(x) + t^2 g(x), with no requires on t; its laws are stated by `SquareIsHomotopyRule`, `SquareIsWeightedBlend`, `SquareWeightsSumToOneIff` and `SquareDiagonalIff` |
| `Homotopy.SquareIsHomotopyRule` | src/main/java/com/uwe_hennig/homotopy/Homotopy.java:24-26 | the quadratic rule yields f at t = 0 and g at t = 1, for every f, g and x |
| `Homotopy.SquareFamilyEndpoints` | src/main/java/com/uwe_hennig/homotopy/Homotopy.java:24-26 | through the combinator, the quadratic family is f at t = 0 and g at t = 1 |
| `Homotopy.SquareWeights` | src/main/java/com/uwe_hennig/homotopy/Homotopy.java:25 | the quadratic weights are (1 - t)^2 on f and t^2 on g, and neither is ever negative |
| `Homotopy.SquareIsWeightedBlend` | src/main/java/com/uwe_hennig/homotopy/Homotopy.java:25 | the quadratic rule combines f(x) and g(x) with weights that depend on t alone |
| `Homotopy.SquareWeightsSumToOneIff` | src/main/java/com/uwe_hennig/homotopy/Homotopy.java:25 | the quadratic weights sum to 1 if and only if t is 0 or 1 |
| `Homotopy.SquareWeightsSumInterior` | src/main/java/com/uwe_hennig/homotopy/Homotopy.java:25 | for t strictly between 0 and 1 the quadratic weights sum to less than 1 |
| `Homotopy.SquareWeightsSumExterior` | src/main/java/com/uwe_hennig/homotopy/Homotopy.java:24-26 | for t outside [0, 1] the quadratic weights sum to more than 1 |
| `Homotopy.SquareWeightsSum` | src/main/java/com/uwe_hennig/homotopy/Homotopy.java:25 | the quadratic weights sum to 1 - 2t(1 - t) |
| `Homotopy.SquareDiagonalIff` | src/main/java/com/uwe_hennig/homotopy/Homotopy.java:25 | blending a function quadratically with itself gives f(x) back if and only if t is 0 or 1, or f(x) is 0 |
| `Homotopy.SquareSymmetric` | src/main/java/com/uwe_hennig/homotopy/Homotopy.java:25 | the quadratic blend from f to g at t equals the blend from g to f at 1 - t |
| `Homotopy.SquareMidpoint` | src/main/java/com/uwe_hennig/homotopy/Homotopy.java:25 | at t = 1/2 the quadratic blend is (f(x) + g(x)) / 4, half the linear midpoint |
| `HomotopyTest.Parabola` | src/test/java/com/uwe_hennig/homotopy/HomotopyTest.java:25 | the test's f: x => x^2 |
| `HomotopyTest.Line` | src/test/java/com/uwe_hennig/homotopy/HomotopyTest.java:26 | the test's g: x => 2x + 1 |
| `HomotopyTest.Family` | src/test/java/com/uwe_hennig/homotopy/HomotopyTest.java:25-28 | the test's family is (1 - t) x^2 + t (2x + 1) |
| `HomotopyTest.LinearTest` | src/test/java/com/uwe_hennig/homotopy/HomotopyTest.java:29-43 | the test's nine comparisons hold as exact equalities: h0 is f, h1 is g, and h05 is the average, at x = 0, 10 and 15 |
| `HomotopyTest.LinearTestValues` | src/test/java/com/uwe_hennig/homotopy/HomotopyTest.java:29-43 | the concrete values the test compares, e.g. h05(10) = 60.5 and h1(15) = 31 |

## Left out

- `hTrig` and `hExp` (Homotopy.java:28-35) are not modelled. They use cosine, sine,
  the exponential, pi and e. Dafny has none of these, so the model could only
  assume axioms about them rather than prove anything.
- IEEE-754 double behaviour is not modelled: rounding, cancellation for large |t|,
  NaN and infinity (a zero weight times an infinite endpoint gives NaN),
  propagation, overflow. The unit test's tolerance of 1e-4 is not modelled either,
  since with exact reals its comparisons become equalities.
- Null arguments are not modelled. A null boxed `Double`, a null `rule`
  (Homotopy.java:17) or a null `f` or `g` (lines 21 and 25) makes the Java code
  throw a NullPointerException, and only when the returned lambda is applied.
  The model's `real` values and arrow-typed functions have no null.
- Evaluation time and laziness are not modelled. The Java combinator builds a
  lambda and does not call the rule until the lambda is applied. Dafny functions
  are pure and total, so this timing cannot be observed.
- The printing loop of the unit test (HomotopyTest.java:45-57) is console output only.
- TriFunction.java is a functional interface with no behaviour of its own. It is
  Dafny's arrow type `(T, U, V) -> R`.
- The source's endpoint functions and its rules (any `TriFunction`) may throw
  exceptions, and these propagate to the caller. They may also have side effects,
  such as counting calls or printing. The model's `real -> real` functions and its
  `(T, U, V) -> R` rules are total and pure, so they cannot fail and have no
  effects.
- `Homotopy.Homotopy` and `Homotopy.Uncurry` require their parameter types to be
  `(!new)`, which Dafny needs for their quantified contracts. This rules out
  class-typed arguments, which the Java generics allow. The model never binds a
  class type.
