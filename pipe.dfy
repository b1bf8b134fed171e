/**
 * The constant-area pipe element (pipe.py and its checkpoint twin) and the
 * friction-factor formulas beside it.
 */
module Pipes {
  import opened Wrappers
  import opened Topology
  import opened StateVector
  import opened LossCoefficients
  import opened Network

  /** A pipe has two ports. */
  const PipePorts: nat := 2

  /** Reynolds number below which both friction formulas use the laminar law. */
  const LaminarLimit: real := 2100.0

  /** Starting guess of the Colebrook-White iteration. */
  const ColebrookStart: real := 0.05

  datatype Pipe = Pipe(id: nat, name: string, length: real, dh: real, epsilon: real, area: real, model: string)

  /** The flow area of a pipe is that of a circle of its hydraulic diameter. */
  predicate ValidPipe(p: Pipe)
  {
    p.area == CircleArea(p.dh)
  }

  /**
   * `Pipe.__init__`: a new two-port element in the arena with area
   * pi*Dh^2/4 and the given resistance model, "analytical" by default.
   */
  method NewPipe(arena: Arena, name: string, length: real, dh: real, epsilon: real,
                 model: string := "analytical") returns (p: Pipe)
    requires arena.Valid()
    modifies arena
    ensures arena.Valid()
    ensures p.id == |old(arena.neighbors)|
    ensures arena.neighbors == old(arena.neighbors) + [Open(PipePorts)]
    ensures arena.ports == old(arena.ports) + [Open(PipePorts)]
    ensures ValidPipe(p) && p.name == name && p.length == length && p.dh == dh && p.epsilon == epsilon
    ensures p.model == model
  {
    var e := arena.NewElement(PipePorts);
    p := Pipe(e, name, length, dh, epsilon, CircleArea(dh), model);
  }

  /** `I`: the inertance rho*l/A of the pipe, proportional to its length. */
  function Inertance(p: Pipe, rho: real): (r: real)
    requires ValidPipe(p) && p.dh != 0.0
    ensures r * p.area == rho * p.length
    ensures rho >= 0.0 && p.length >= 0.0 ==> r >= 0.0
  {
    rho * p.length / p.area
  }

  /** `dP_body`: a pipe carries no body load, whatever the fluid. */
  function BodyLoad(p: Pipe, rho: real): (r: real)
    ensures r == 0.0
  {
    0.0
  }

  /**
   * `steady_flow_eqns`: the momentum residual P2 - P1 - dP_damping(mdot1) -
   * dP_body and the continuity residual mdot2 - mdot1. The damping law is
   * a parameter. They vanish exactly when the pressure rises by the damping
   * loss from port 1 to port 2 and the same flow passes both ports.
   */
  function Residuals(p: Pipe, row: Slots, sv: seq<real>, nSv: nat, rho: real,
                     damping: (real, real) -> real): (r: seq<real>)
    requires |row| == PipePorts && Readable(row, sv, nSv)
    ensures |r| == PipePorts
    ensures r == [0.0, 0.0] <==>
              Pressure(row, sv, nSv, 1) - Pressure(row, sv, nSv, 0) == damping(MassFlow(row, sv, nSv, 0), rho) &&
              MassFlow(row, sv, nSv, 1) == MassFlow(row, sv, nSv, 0)
  {
    var p1, p2 := Pressure(row, sv, nSv, 0), Pressure(row, sv, nSv, 1);
    var m1, m2 := MassFlow(row, sv, nSv, 0), MassFlow(row, sv, nSv, 1);
    [p2 - p1 - damping(m1, rho) - BodyLoad(p, rho), m2 - m1]
  }

  /** The laminar (Hagen-Poiseuille) friction factor 64/Re. */
  function Laminar(re: real): (f: real)
    requires re != 0.0
    ensures f * re == 64.0
    ensures re > 0.0 ==> f > 0.0
  {
    64.0 / re
  }

  /** Applying the update step n times, starting from f. */
  function Iterate(step: real -> real, n: nat, f: real): real
  {
    if n == 0 then f else Iterate(step, n - 1, step(f))
  }

  /**
   * The Colebrook-White iteration: n updates (4 by default) from the starting guess 0.05.
   * The update itself (a log10 and a sqrt of the current factor) is the
   * parameter step. The earlier revision of `f_colebrook_white` is exactly
   * this, for every Reynolds number.
   */
  method ColebrookIterate(step: real -> real, n: nat := 4) returns (f: real)
    ensures f == Iterate(step, n, ColebrookStart)
  {
    f := ColebrookStart;
    var i := 0;
    while i < n
      invariant i <= n
      invariant Iterate(step, n - i, f) == Iterate(step, n, ColebrookStart)
    {
      f := step(f);
      i := i + 1;
    }
  }

  /**
   * `f_colebrook_white`: below Re 2100 the laminar factor; otherwise the
   * Colebrook-White iteration.
   */
  method ColebrookWhite(re: real, step: real -> real, n: nat := 4) returns (f: real)
    requires re != 0.0
    ensures re < LaminarLimit ==> f == Laminar(re) && f * re == 64.0
    ensures re >= LaminarLimit ==> f == Iterate(step, n, ColebrookStart)
  {
    if re < LaminarLimit {
      return 64.0 / re;
    }
    f := ColebrookIterate(step, n);
  }

  /**
   * `f_churchill`: below Re 2100 the laminar factor; otherwise Churchill's
   * explicit formula, whose value (a log10 of a fractional power) is the
   * parameter turbulent.
   */
  function Churchill(re: real, turbulent: real): (f: real)
    requires re != 0.0
    ensures re < LaminarLimit ==> f == Laminar(re)
    ensures re >= LaminarLimit ==> f == turbulent
  {
    if re < LaminarLimit then 64.0 / re else turbulent
  }

  /** `calc_K_friction`: the loss coefficient f*(l/d) of a straight run of length l. */
  function KFriction(f: real, l: real, d: real): (k: real)
    requires d != 0.0
    ensures k * d == f * l
  {
    f * (l / d)
  }

  /** Friction losses of two runs of the same pipe in series add up. */
  lemma KFrictionAdditive(f: real, l1: real, l2: real, d: real)
    requires d != 0.0
    ensures KFriction(f, l1 + l2, d) == KFriction(f, l1, d) + KFriction(f, l2, d)
  {
    assert (l1 + l2) / d == l1 / d + l2 / d;
  }
}
