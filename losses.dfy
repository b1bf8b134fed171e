/**
 * The loss-coefficient ("K-factor") algebra shared by the orifice and pipe
 * modules: conversions between a loss coefficient K, a discharge
 * coefficient Cd and the pressure drop across a circular passage.
 *
 * Quantities are exact reals; floating-point rounding is not modelled.
 * Every `x**2` of the program is written `Square(x)`.
 */
module LossCoefficients {

  /** The value of pi the program takes from scipy.constants; the proofs use only Pi > 0. */
  const Pi: real := 3.141592653589793

  /** `x**2`. */
  function Square(x: real): real
  {
    x * x
  }

  /** Cross-sectional area pi*d^2/4 of a circular passage of diameter d. */
  function CircleArea(d: real): (a: real)
    ensures a >= 0.0
    ensures d != 0.0 ==> a > 0.0
  {
    SquarePositive(d);
    Pi * Square(d) / 4.0
  }

  /** `K_from_Cd`: the loss coefficient of a passage with discharge coefficient cd. */
  function KFromCd(cd: real): (k: real)
    requires cd != 0.0
    ensures k > 0.0
    ensures k * Square(cd) == 1.0
  {
    SquarePositive(cd);
    1.0 / Square(cd)
  }

  /**
   * `dP_from_K`: the pressure drop of mass flow mdot of density rho through
   * a passage of diameter d with loss coefficient k. The program divides by
   * 2*A^2*rho, so d and rho must not be zero.
   */
  function DPFromK(k: real, mdot: real, d: real, rho: real): (dp: real)
    requires d != 0.0 && rho != 0.0
    ensures k >= 0.0 && rho > 0.0 ==> dp >= 0.0
    ensures dp * (2.0 * Square(CircleArea(d)) * rho) == k * Square(mdot)
  {
    SquarePositive(CircleArea(d));
    SquarePositive(mdot);
    k * Square(mdot) / (2.0 * Square(CircleArea(d)) * rho)
  }

  /** `dP_from_Cd`: the pressure drop written with the discharge coefficient instead of K. */
  function DPFromCd(cd: real, mdot: real, d: real, rho: real): (dp: real)
    requires cd != 0.0 && d != 0.0 && rho != 0.0
    ensures dp == DPFromK(KFromCd(cd), mdot, d, rho)
  {
    assert cd * Pi * Square(d) / 4.0 == cd * CircleArea(d);
    SquarePositive(cd * CircleArea(d));
    Square(mdot) / (2.0 * Square(cd * Pi * Square(d) / 4.0) * rho)
  }

  /** The pressure drop is linear in the loss coefficient: losses in series add. */
  lemma DPFromKLinear(c: real, k1: real, k2: real, mdot: real, d: real, rho: real)
    requires d != 0.0 && rho != 0.0
    ensures DPFromK(c * k1 + k2, mdot, d, rho) == c * DPFromK(k1, mdot, d, rho) + DPFromK(k2, mdot, d, rho)
  {
    var den := 2.0 * Square(CircleArea(d)) * rho;
    var m2 := Square(mdot);
    SquarePositive(CircleArea(d));
    assert (c * k1 + k2) * m2 / den == c * (k1 * m2 / den) + k2 * m2 / den;
  }

  /** The pressure drop is quadratic in the mass flow; in particular it is even in mdot. */
  lemma DPFromKQuadratic(k: real, s: real, mdot: real, d: real, rho: real)
    requires d != 0.0 && rho != 0.0
    ensures DPFromK(k, s * mdot, d, rho) == Square(s) * DPFromK(k, mdot, d, rho)
    ensures DPFromK(k, -mdot, d, rho) == DPFromK(k, mdot, d, rho)
  {
    var den := 2.0 * Square(CircleArea(d)) * rho;
    SquarePositive(CircleArea(d));
    assert Square(s * mdot) == Square(s) * Square(mdot);
    assert k * (Square(s) * Square(mdot)) / den == Square(s) * (k * Square(mdot) / den);
    assert Square(-mdot) == Square(mdot);
  }

  /**
   * The squared form of `mdot_from_K`: a pressure drop computed from mdot
   * gives back mdot^2 as A^2 * 2*dP*rho/K, the square of what the program's
   * mass-flow conversion returns.
   */
  lemma MassFlowFromDrop(k: real, mdot: real, d: real, rho: real)
    requires k != 0.0 && d != 0.0 && rho != 0.0
    ensures Square(CircleArea(d)) * (2.0 * DPFromK(k, mdot, d, rho) * rho / k) == Square(mdot)
  {
    var a2 := Square(CircleArea(d));
    var dp := DPFromK(k, mdot, d, rho);
    SquarePositive(CircleArea(d));
    assert dp * (2.0 * a2 * rho) == k * Square(mdot);
    assert a2 * (2.0 * dp * rho) == k * Square(mdot);
  }

  /** The square of a nonzero real is positive. */
  lemma SquarePositive(x: real)
    ensures Square(x) >= 0.0
    ensures x != 0.0 ==> Square(x) > 0.0
  {
    if x != 0.0 {
      var y := 1.0 / x;
      assert Square(x) * (y * y) == 1.0;
    }
  }
}
