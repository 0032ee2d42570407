/**
 * A model of the homotopy library: a generic combinator that binds a
 * three-argument blending rule to two endpoint functions f and g, and two
 * polynomial blending rules that deform f into g as the parameter t moves
 * from 0 to 1.
 *
 * Floating-point doubles are modelled as exact reals, and every law below is
 * proved for exact reals. Infinite or NaN endpoint values, and cancellation
 * for large |t|, are outside the model.
 */
module Homotopy {

  /** A function of one real variable (an endpoint f or g, or a blend h_t). */
  type RealFunction = real -> real

  /** A blending rule: given f, g and the parameter t, the function h_t. */
  type BlendRule = (RealFunction, RealFunction, real) -> RealFunction

  // ---------------------------------------------------------------------
  // The combinator
  // ---------------------------------------------------------------------

  /**
   * Partial application of a three-argument rule to its first two
   * arguments: the result waits for the third argument and hands all three,
   * unchanged and in order, to the rule.
   */
  function Homotopy<T, U, V(!new), R>(rule: (T, U, V) -> R, x: T, y: U): (h: V -> R)
    ensures forall z :: h(z) == rule(x, y, z)
  {
    z => rule(x, y, z)
  }

  /**
   * The inverse direction of the combinator: a two-stage function turned
   * back into a three-argument one.
   */
  function Uncurry<T(!new), U(!new), V(!new), R>(stages: (T, U) -> (V -> R)): (rule: (T, U, V) -> R)
    ensures forall x, y, z :: rule(x, y, z) == stages(x, y)(z)
  {
    (x, y, z) => stages(x, y)(z)
  }

  /** Binding a rule with the combinator and uncurrying again gives the rule back. */
  lemma UncurryHomotopy<T(!new), U(!new), V(!new), R>(rule: (T, U, V) -> R, x: T, y: U, z: V)
    ensures Uncurry((a: T, b: U) => Homotopy(rule, a, b))(x, y, z) == rule(x, y, z)
  {
  }

  /** Uncurrying a two-stage function and binding it again gives the same stages. */
  lemma HomotopyUncurry<T(!new), U(!new), V(!new), R>(stages: (T, U) -> (V -> R), x: T, y: U, z: V)
    ensures Homotopy(Uncurry(stages), x, y)(z) == stages(x, y)(z)
  {
  }

  // ---------------------------------------------------------------------
  // The polynomial blending rules
  // ---------------------------------------------------------------------

  /** The straight-line blend with weights (1 - t) on f and t on g. */
  function HLinear(f: RealFunction, g: RealFunction, t: real): (h: RealFunction)
  {
    x => (1.0 - t) * f(x) + t * g(x)
  }

  /** The quadratic blend with weights (1 - t)^2 on f and t^2 on g. */
  function HSquare(f: RealFunction, g: RealFunction, t: real): (h: RealFunction)
  {
    x => (1.0 - t) * (1.0 - t) * f(x) + t * t * g(x)
  }

  /** The constant function with value c. */
  function Const(c: real): (k: RealFunction)
  {
    _ => c
  }

  /** The weight a rule puts on f at t: what it makes of f = 1 and g = 0. */
  function WeightOnF(rule: BlendRule, t: real): (w: real)
  {
    rule(Const(1.0), Const(0.0), t)(0.0)
  }

  /** The weight a rule puts on g at t: what it makes of f = 0 and g = 1. */
  function WeightOnG(rule: BlendRule, t: real): (w: real)
  {
    rule(Const(0.0), Const(1.0), t)(0.0)
  }

  /**
   * The defining contract of a homotopy between f and g: at t = 0 the rule
   * yields f and at t = 1 it yields g, pointwise, for every f and g.
   */
  ghost predicate IsHomotopyRule(rule: BlendRule)
  {
    && (forall f, g, x :: rule(f, g, 0.0)(x) == f(x))
    && (forall f, g, x :: rule(f, g, 1.0)(x) == g(x))
  }

  /**
   * At t the rule maps x to a weighted combination of f(x) and g(x) whose
   * weights depend on t alone, not on x, f or g.
   */
  ghost predicate IsWeightedBlend(rule: BlendRule, t: real)
  {
    forall f, g, x :: rule(f, g, t)(x) == WeightOnF(rule, t) * f(x) + WeightOnG(rule, t) * g(x)
  }

  /** A weighted blend whose weights sum to 1 gives back any function blended with itself. */
  lemma WeightedBlendDiagonal(rule: BlendRule, t: real, f: RealFunction, x: real)
    requires IsWeightedBlend(rule, t)
    requires WeightOnF(rule, t) + WeightOnG(rule, t) == 1.0
    ensures rule(f, f, t)(x) == f(x)
  {
    calc {
      rule(f, f, t)(x);
    ==
      WeightOnF(rule, t) * f(x) + WeightOnG(rule, t) * f(x);
    ==
      (WeightOnF(rule, t) + WeightOnG(rule, t)) * f(x);
    }
  }

  /** A family built by the combinator from a homotopy rule starts at f and ends at g. */
  lemma HomotopyEndpoints(rule: BlendRule, f: RealFunction, g: RealFunction, x: real)
    requires IsHomotopyRule(rule)
    ensures Homotopy(rule, f, g)(0.0)(x) == f(x)
    ensures Homotopy(rule, f, g)(1.0)(x) == g(x)
  {
  }

  // ---------------------------------------------------------------------
  // Laws of the linear blend
  // ---------------------------------------------------------------------

  /** The linear blend is the point a fraction t of the way from f(x) to g(x). */
  lemma LinearIsLerp(f: RealFunction, g: RealFunction, t: real, x: real)
    ensures HLinear(f, g, t)(x) == f(x) + t * (g(x) - f(x))
  {
  }

  /** The linear rule meets the defining contract of a homotopy. */
  lemma LinearIsHomotopyRule()
    ensures IsHomotopyRule(HLinear)
  {
  }

  /** Through the combinator the linear family starts at f, ends at g and passes the average. */
  lemma LinearFamilyLaws(f: RealFunction, g: RealFunction, x: real)
    ensures Homotopy(HLinear, f, g)(0.0)(x) == f(x)
    ensures Homotopy(HLinear, f, g)(1.0)(x) == g(x)
    ensures Homotopy(HLinear, f, g)(0.5)(x) == (f(x) + g(x)) / 2.0
  {
  }

  /** The linear weights are 1 - t and t, and they sum to 1 for every t. */
  lemma LinearWeights(t: real)
    ensures WeightOnF(HLinear, t) == 1.0 - t
    ensures WeightOnG(HLinear, t) == t
    ensures WeightOnF(HLinear, t) + WeightOnG(HLinear, t) == 1.0
  {
  }

  /** The linear blend mixes f(x) and g(x) with weights that depend on t alone. */
  lemma LinearIsWeightedBlend(t: real)
    ensures IsWeightedBlend(HLinear, t)
  {
    forall f, g, x
      ensures HLinear(f, g, t)(x) == WeightOnF(HLinear, t) * f(x) + WeightOnG(HLinear, t) * g(x)
    {
      LinearIsWeightedAt(f, g, t, x);
    }
  }

  /** The weighted-blend law of the linear rule at one point. */
  lemma LinearIsWeightedAt(f: RealFunction, g: RealFunction, t: real, x: real)
    ensures HLinear(f, g, t)(x) == WeightOnF(HLinear, t) * f(x) + WeightOnG(HLinear, t) * g(x)
  {
    LinearWeights(t);
    ScaleBoth(WeightOnF(HLinear, t), 1.0 - t, f(x));
    ScaleBoth(WeightOnG(HLinear, t), t, g(x));
  }

  /** Blending a function with itself gives it back, whatever t is. */
  lemma LinearDiagonal(f: RealFunction, t: real, x: real)
    ensures HLinear(f, f, t)(x) == f(x)
  {
    LinearIsWeightedBlend(t);
    LinearWeights(t);
    WeightedBlendDiagonal(HLinear, t, f, x);
  }

  /**
   * The combinator hands f and g to the rule in the order given: where f and
   * g differ, swapping them changes where the linear family starts.
   */
  lemma LinearFamilyKeepsOrder(f: RealFunction, g: RealFunction, x: real)
    requires f(x) != g(x)
    ensures Homotopy(HLinear, f, g)(0.0)(x) == f(x)
    ensures Homotopy(HLinear, g, f)(0.0)(x) == g(x)
    ensures Homotopy(HLinear, f, g)(0.0)(x) != Homotopy(HLinear, g, f)(0.0)(x)
  {
  }

  /** Running the linear blend backwards from g to f retraces the same path. */
  lemma LinearSymmetric(f: RealFunction, g: RealFunction, t: real, x: real)
    ensures HLinear(f, g, t)(x) == HLinear(g, f, 1.0 - t)(x)
  {
  }

  /** For t in [0, 1] the linear blend lies between f(x) and g(x). */
  lemma LinearBetween(f: RealFunction, g: RealFunction, t: real, x: real)
    requires 0.0 <= t <= 1.0
    ensures f(x) <= g(x) ==> f(x) <= HLinear(f, g, t)(x) <= g(x)
    ensures g(x) <= f(x) ==> g(x) <= HLinear(f, g, t)(x) <= f(x)
  {
    var d := g(x) - f(x);
    LinearIsLerp(f, g, t, x);
    if d >= 0.0 {
      ProductNonNegative(t, d);
      ProductNonNegative(1.0 - t, d);
    } else {
      ProductNonNegative(t, -d);
      ProductNonNegative(1.0 - t, -d);
    }
  }

  /**
   * The linear blend moves monotonically in t: towards g(x) from f(x), so it
   * rises in t where f(x) <= g(x) and falls in t where g(x) <= f(x).
   */
  lemma LinearMonotone(f: RealFunction, g: RealFunction, s: real, t: real, x: real)
    requires s <= t
    ensures f(x) <= g(x) ==> HLinear(f, g, s)(x) <= HLinear(f, g, t)(x)
    ensures g(x) <= f(x) ==> HLinear(f, g, t)(x) <= HLinear(f, g, s)(x)
  {
    LinearIsLerp(f, g, s, x);
    LinearIsLerp(f, g, t, x);
    if f(x) <= g(x) {
      ProductNonNegative(t - s, g(x) - f(x));
    } else {
      ProductNonNegative(t - s, f(x) - g(x));
    }
  }

  /** t is not clamped: beyond 1 the linear blend overshoots g, below 0 it undershoots f. */
  lemma LinearExtrapolates(f: RealFunction, g: RealFunction, t: real, x: real)
    requires f(x) < g(x)
    ensures t > 1.0 ==> HLinear(f, g, t)(x) > g(x)
    ensures t < 0.0 ==> HLinear(f, g, t)(x) < f(x)
  {
    var d := g(x) - f(x);
    LinearIsLerp(f, g, t, x);
    if t > 1.0 {
      ProductPositive(t - 1.0, d);
    } else if t < 0.0 {
      ProductPositive(-t, d);
    }
  }

  /** The mirror case: where g(x) < f(x), beyond 1 the blend undershoots g, below 0 it overshoots f. */
  lemma LinearExtrapolatesReversed(f: RealFunction, g: RealFunction, t: real, x: real)
    requires g(x) < f(x)
    ensures t > 1.0 ==> HLinear(f, g, t)(x) < g(x)
    ensures t < 0.0 ==> HLinear(f, g, t)(x) > f(x)
  {
    LinearSymmetric(f, g, t, x);
    LinearExtrapolates(g, f, 1.0 - t, x);
  }

  // ---------------------------------------------------------------------
  // Laws of the quadratic blend
  // ---------------------------------------------------------------------

  /** The quadratic rule meets the defining contract of a homotopy. */
  lemma SquareIsHomotopyRule()
    ensures IsHomotopyRule(HSquare)
  {
  }

  /** Through the combinator the quadratic family starts at f and ends at g. */
  lemma SquareFamilyEndpoints(f: RealFunction, g: RealFunction, x: real)
    ensures Homotopy(HSquare, f, g)(0.0)(x) == f(x)
    ensures Homotopy(HSquare, f, g)(1.0)(x) == g(x)
  {
  }

  /** The quadratic weights are (1 - t)^2 and t^2, both never negative. */
  lemma SquareWeights(t: real)
    ensures WeightOnF(HSquare, t) == (1.0 - t) * (1.0 - t) >= 0.0
    ensures WeightOnG(HSquare, t) == t * t >= 0.0
  {
  }

  /** The quadratic blend mixes f(x) and g(x) with weights that depend on t alone. */
  lemma SquareIsWeightedBlend(t: real)
    ensures IsWeightedBlend(HSquare, t)
  {
    forall f, g, x
      ensures HSquare(f, g, t)(x) == WeightOnF(HSquare, t) * f(x) + WeightOnG(HSquare, t) * g(x)
    {
      SquareIsWeightedAt(f, g, t, x);
    }
  }

  /** The weighted-blend law of the quadratic rule at one point. */
  lemma SquareIsWeightedAt(f: RealFunction, g: RealFunction, t: real, x: real)
    ensures HSquare(f, g, t)(x) == WeightOnF(HSquare, t) * f(x) + WeightOnG(HSquare, t) * g(x)
  {
    SquareWeights(t);
    ScaleBoth(WeightOnF(HSquare, t), (1.0 - t) * (1.0 - t), f(x));
    ScaleBoth(WeightOnG(HSquare, t), t * t, g(x));
  }

  /** The quadratic weights sum to 1 exactly at the endpoints t = 0 and t = 1. */
  lemma SquareWeightsSumToOneIff(t: real)
    ensures WeightOnF(HSquare, t) + WeightOnG(HSquare, t) == 1.0 <==> t == 0.0 || t == 1.0
  {
    SquareWeightsSum(t);
    if t < 0.0 {
      ProductPositive(-t, 1.0 - t);
    } else if 0.0 < t < 1.0 {
      ProductPositive(t, 1.0 - t);
    } else if t > 1.0 {
      ProductPositive(t, t - 1.0);
    }
  }

  /** Strictly between the endpoints the quadratic weights sum to less than 1: h_t is damped. */
  lemma SquareWeightsSumInterior(t: real)
    requires 0.0 < t < 1.0
    ensures WeightOnF(HSquare, t) + WeightOnG(HSquare, t) < 1.0
  {
    SquareWeightsSum(t);
    ProductPositive(t, 1.0 - t);
  }

  /** Outside [0, 1] the quadratic weights sum to more than 1: h_t is amplified. */
  lemma SquareWeightsSumExterior(t: real)
    requires t < 0.0 || t > 1.0
    ensures WeightOnF(HSquare, t) + WeightOnG(HSquare, t) > 1.0
  {
    SquareWeightsSum(t);
    if t < 0.0 {
      ProductPositive(-t, 1.0 - t);
    } else {
      ProductPositive(t, t - 1.0);
    }
  }

  /** The sum of the quadratic weights is 1 minus twice the product t (1 - t). */
  lemma SquareWeightsSum(t: real)
    ensures WeightOnF(HSquare, t) + WeightOnG(HSquare, t) == 1.0 - t * (1.0 - t) - t * (1.0 - t)
  {
  }

  /** Blending a function with itself gives it back only at the endpoints (or where it is 0). */
  lemma SquareDiagonalIff(f: RealFunction, t: real, x: real)
    ensures HSquare(f, f, t)(x) == f(x) <==> t == 0.0 || t == 1.0 || f(x) == 0.0
  {
  }

  /** Running the quadratic blend backwards from g to f retraces the same path. */
  lemma SquareSymmetric(f: RealFunction, g: RealFunction, t: real, x: real)
    ensures HSquare(f, g, t)(x) == HSquare(g, f, 1.0 - t)(x)
  {
  }

  /** At t = 1/2 the quadratic blend is half the average: it is not a convex combination. */
  lemma SquareMidpoint(f: RealFunction, g: RealFunction, x: real)
    ensures HSquare(f, g, 0.5)(x) == (f(x) + g(x)) / 4.0
    ensures HSquare(f, g, 0.5)(x) == HLinear(f, g, 0.5)(x) / 2.0
  {
  }

  // ---------------------------------------------------------------------
  // Sign rules for products of reals
  // ---------------------------------------------------------------------

  /** Congruence of multiplication: stated so that the solver need not find it itself. */
  lemma ScaleBoth(a: real, b: real, c: real)
    requires a == b
    ensures a * c == b * c
  {
  }

  /** The product of two non-negative reals is non-negative. */
  lemma ProductNonNegative(a: real, b: real)
    requires a >= 0.0 && b >= 0.0
    ensures a * b >= 0.0
  {
  }

  /** The product of two positive reals is positive. */
  lemma ProductPositive(a: real, b: real)
    requires a > 0.0 && b > 0.0
    ensures a * b > 0.0
  {
  }
}
