/**
 * The orifice plate element (orifice-checkpoint.py): a two-port element with
 * N parallel holes of diameter d, whose loss coefficient is set either per
 * hole (Ko) or for the whole plate (Knet = Ko/N^2).
 */
module Orifices {
  import opened Wrappers
  import opened Topology
  import opened StateVector
  import opened LossCoefficients
  import opened Network

  /** An orifice plate has two ports. */
  const OrificePorts: nat := 2

  class Orifice {
    /** The element id of the plate in the arena. */
    const id: nat
    const name: string
    /** `do`: hole diameter. */
    const diameter: real
    /** `Ao`: hole area. */
    const area: real
    /** `lo`: hole length. */
    const length: real
    /** `N`: number of holes. */
    const count: real
    /** `Ko`: loss coefficient of one hole; absent until a setter runs. */
    var ko: Option<real>
    /** `Knet`: loss coefficient of the plate; absent until a setter runs. */
    var knet: Option<real>

    /** With a nonzero hole count, both coefficients are set or neither, and Knet*N^2 == Ko. */
    predicate Scaled()
      reads this
    {
      count != 0.0 ==>
        (ko.Some? <==> knet.Some?) && (knet.Some? ==> knet.value * Square(count) == ko.value)
    }

    predicate Valid()
      reads this
    {
      area == CircleArea(diameter) && Scaled()
    }

    /**
     * `Orifice.__init__`: a new two-port element in the arena, with area
     * pi*d^2/4 and no loss coefficient yet. The length defaults to 0 and
     * the hole count to 1.
     */
    constructor (arena: Arena, name: string, diameter: real, length: real := 0.0, count: real := 1.0)
      requires arena.Valid()
      modifies arena
      ensures arena.Valid()
      ensures id == |old(arena.neighbors)|
      ensures arena.neighbors == old(arena.neighbors) + [Open(OrificePorts)]
      ensures arena.ports == old(arena.ports) + [Open(OrificePorts)]
      ensures Valid() && ko == None && knet == None
      ensures this.name == name && this.diameter == diameter && this.length == length && this.count == count
      ensures area == CircleArea(diameter)
    {
      var e := arena.NewElement(OrificePorts);
      id := e;
      this.name := name;
      this.diameter := diameter;
      this.area := CircleArea(diameter);
      this.length := length;
      this.count := count;
      ko, knet := None, None;
    }

    /**
     * `set_Ko`: Ko is stored first, then Knet = Ko/N^2. With no holes the
     * division raises after Ko has been stored, and Knet keeps its old value.
     */
    method SetKo(k: real) returns (ok: bool)
      requires Valid()
      modifies this
      ensures Valid()
      ensures ok <==> count != 0.0
      ensures ko == Some(k)
      ensures ok ==> knet.Some? && knet.value * Square(count) == k
      ensures !ok ==> knet == old(knet)
    {
      ko := Some(k);
      if count == 0.0 {
        return false;
      }
      SquarePositive(count);
      knet := Some(k / Square(count));
      ok := true;
    }

    /** `set_Knet`: Ko = Knet*N^2 and Knet are stored; this never raises. */
    method SetKnet(k: real)
      requires Valid()
      modifies this
      ensures Valid()
      ensures ko == Some(k * Square(count)) && knet == Some(k)
    {
      ko := Some(k * Square(count));
      knet := Some(k);
    }

    /**
     * `I`: the inertance rho*lo/Ao of the hole. It vanishes for the default
     * length 0 and grows with the density.
     */
    function Inertance(rho: real): (r: real)
      reads this
      requires Valid() && diameter != 0.0
      ensures r * area == rho * length
      ensures length == 0.0 ==> r == 0.0
      ensures rho >= 0.0 && length >= 0.0 ==> r >= 0.0
    {
      rho * length / area
    }

    /**
     * `dP_damping`: the quadratic pressure loss Ko*(mdot/N)^2/(2*Ao^2*rho)
     * of a total mass flow mdot through the plate. It needs Ko set and
     * divides by N, Ao and rho.
     */
    function Damping(mdot: real, rho: real): (dp: real)
      reads this
      requires Valid() && ko.Some? && count != 0.0 && diameter != 0.0 && rho != 0.0
      ensures ko.value >= 0.0 && rho > 0.0 ==> dp >= 0.0
    {
      SquarePositive(mdot / count);
      SquarePositive(area);
      ko.value * Square(mdot / count) / (2.0 * Square(area) * rho)
    }

    /** `dP_body`: an orifice carries no body load. */
    function BodyLoad(): (r: real)
      ensures r == 0.0
    {
      0.0
    }

    /**
     * `steady_flow_eqns`: the momentum residual P2 - P1 - dP_damping(mdot1)
     * and the continuity residual mdot2 - mdot1. They vanish exactly when the
     * pressure rises by the damping loss from port 1 to port 2 and the same
     * flow passes both ports.
     */
    function Residuals(row: Slots, sv: seq<real>, nSv: nat, rho: real): (r: seq<real>)
      reads this
      requires Valid() && ko.Some? && count != 0.0 && diameter != 0.0 && rho != 0.0
      requires |row| == OrificePorts && Readable(row, sv, nSv)
      ensures |r| == OrificePorts
      ensures r == [0.0, 0.0] <==>
                Pressure(row, sv, nSv, 1) - Pressure(row, sv, nSv, 0) == Damping(MassFlow(row, sv, nSv, 0), rho) &&
                MassFlow(row, sv, nSv, 1) == MassFlow(row, sv, nSv, 0)
    {
      var p1, p2 := Pressure(row, sv, nSv, 0), Pressure(row, sv, nSv, 1);
      var m1, m2 := MassFlow(row, sv, nSv, 0), MassFlow(row, sv, nSv, 1);
      [p2 - p1 - Damping(m1, rho), m2 - m1]
    }
  }

  /** The damping loss of a plate is that of its net coefficient through one hole's diameter: dP_from_K(Knet). */
  lemma DampingIsDPFromK(o: Orifice, mdot: real, rho: real)
    requires o.Valid() && o.ko.Some? && o.count != 0.0 && o.diameter != 0.0 && rho != 0.0
    ensures o.Damping(mdot, rho) == DPFromK(o.knet.value, mdot, o.diameter, rho)
  {
    var n2 := Square(o.count);
    var den := 2.0 * Square(o.area) * rho;
    SquarePositive(o.count);
    SquarePositive(o.area);
    assert Square(mdot / o.count) * n2 == Square(mdot);
    assert o.ko.value == o.knet.value * n2;
    assert o.ko.value * Square(mdot / o.count) == o.knet.value * Square(mdot);
  }

  /** The damping loss is even in the flow: reversing the flow gives the same loss. */
  lemma DampingEven(o: Orifice, mdot: real, rho: real)
    requires o.Valid() && o.ko.Some? && o.count != 0.0 && o.diameter != 0.0 && rho != 0.0
    ensures o.Damping(-mdot, rho) == o.Damping(mdot, rho)
  {
    SquarePositive(o.area);
    assert -mdot / o.count == -(mdot / o.count);
    assert Square(-mdot / o.count) == Square(mdot / o.count);
  }

  /**
   * At a zero of the residuals, with a nonnegative loss coefficient and a
   * positive density, the pressure at port 2 is at least that at port 1.
   */
  lemma SteadyPressureRise(o: Orifice, row: Slots, sv: seq<real>, nSv: nat, rho: real)
    requires o.Valid() && o.ko.Some? && o.count != 0.0 && o.diameter != 0.0 && rho > 0.0
    requires |row| == OrificePorts && Readable(row, sv, nSv)
    requires o.ko.value >= 0.0
    requires o.Residuals(row, sv, nSv, rho) == [0.0, 0.0]
    ensures Pressure(row, sv, nSv, 1) >= Pressure(row, sv, nSv, 0)
  {
  }
}
