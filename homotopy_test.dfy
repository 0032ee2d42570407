/**
 * The linear-blend scenario of the library's unit test, stated exactly:
 * f(x) = x^2 and g(x) = 2x + 1 are bound with the linear rule, and the
 * families at t = 0, 1 and 1/2 are compared with f, g and their average at
 * x = 0, 10 and 15. Over the reals the comparisons are equalities, not
 * agreements within a tolerance.
 */
module HomotopyTest {
  import opened Homotopy

  /** The test's f: the parabola x^2. */
  function Parabola(x: real): (y: real)
  {
    x * x
  }

  /** The test's g: the line 2x + 1. */
  function Line(x: real): (y: real)
  {
    2.0 * x + 1.0
  }

  /** The family the test builds: the linear rule bound to the parabola and the line. */
  function Family(): (family: real -> RealFunction)
    ensures forall t, x :: family(t)(x) == (1.0 - t) * Parabola(x) + t * Line(x)
  {
    Homotopy.Homotopy(HLinear, Parabola, Line)
  }

  /** The nine comparisons of the test, each holding exactly. */
  lemma LinearTest()
    ensures Family()(0.0)(0.0) == Parabola(0.0)
    ensures Family()(0.0)(10.0) == Parabola(10.0)
    ensures Family()(0.0)(15.0) == Parabola(15.0)
    ensures Family()(1.0)(0.0) == Line(0.0)
    ensures Family()(1.0)(10.0) == Line(10.0)
    ensures Family()(1.0)(15.0) == Line(15.0)
    ensures Family()(0.5)(0.0) == (Line(0.0) + Parabola(0.0)) / 2.0
    ensures Family()(0.5)(10.0) == (Line(10.0) + Parabola(10.0)) / 2.0
    ensures Family()(0.5)(15.0) == (Line(15.0) + Parabola(15.0)) / 2.0
  {
    LinearFamilyLaws(Parabola, Line, 0.0);
    LinearFamilyLaws(Parabola, Line, 10.0);
    LinearFamilyLaws(Parabola, Line, 15.0);
  }

  /** The values the family takes at the test's points. */
  lemma LinearTestValues()
    ensures Family()(0.0)(10.0) == 100.0 && Family()(0.0)(15.0) == 225.0
    ensures Family()(1.0)(10.0) == 21.0 && Family()(1.0)(15.0) == 31.0
    ensures Family()(0.5)(0.0) == 0.5
    ensures Family()(0.5)(10.0) == 60.5 && Family()(0.5)(15.0) == 128.0
  {
  }
}
