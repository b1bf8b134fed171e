/**
 * The tee junction element (tee.py): a three-port element whose steady-state
 * residuals equate the three pressures and balance the mass flow.
 */
module Tees {
  import opened Wrappers
  import opened Topology
  import opened StateVector
  import opened Network

  /** A tee has three ports. */
  const TeePorts: nat := 3

  datatype Tee = Tee(id: nat, name: string, config: string)

  datatype TeeError = InvalidConfig(config: string)

  predicate ValidConfig(config: string)
  {
    config == "converging" || config == "diverging"
  }

  /**
   * `Tee.__init__`: the three-port element is added to the arena first;
   * then only the two known configurations are accepted, and the accepted
   * one is stored. Any other raises, after the element has been added.
   */
  method NewTee(arena: Arena, name: string, config: string) returns (r: Result<Tee, TeeError>)
    requires arena.Valid()
    modifies arena
    ensures arena.Valid()
    ensures arena.neighbors == old(arena.neighbors) + [Open(TeePorts)]
    ensures arena.ports == old(arena.ports) + [Open(TeePorts)]
    ensures r.Ok? <==> ValidConfig(config)
    ensures r.Ok? ==> r.value.id == |old(arena.neighbors)| && r.value.name == name && r.value.config == config
    ensures r.Err? ==> r.error == InvalidConfig(config)
  {
    var e := arena.NewElement(TeePorts);
    if config == "converging" || config == "diverging" {
      r := Ok(Tee(e, name, config));
    } else {
      r := Err(InvalidConfig(config));
    }
  }

  /**
   * `Tee.steady_flow_eqns`: two momentum residuals P1 - P2 and P1 - P3 and
   * one continuity residual mdot1 - mdot2 - mdot3. They vanish exactly when
   * the three pressures agree and the flow into port 1 leaves through ports
   * 2 and 3. Neither the density nor the configuration enters.
   */
  function Residuals(t: Tee, row: Slots, sv: seq<real>, nSv: nat, rho: real): (r: seq<real>)
    requires |row| == TeePorts && Readable(row, sv, nSv)
    ensures |r| == TeePorts
    ensures r == [0.0, 0.0, 0.0] <==>
              Pressure(row, sv, nSv, 0) == Pressure(row, sv, nSv, 1) == Pressure(row, sv, nSv, 2) &&
              MassFlow(row, sv, nSv, 0) == MassFlow(row, sv, nSv, 1) + MassFlow(row, sv, nSv, 2)
  {
    var p1, p2, p3 := Pressure(row, sv, nSv, 0), Pressure(row, sv, nSv, 1), Pressure(row, sv, nSv, 2);
    var m1, m2, m3 := MassFlow(row, sv, nSv, 0), MassFlow(row, sv, nSv, 1), MassFlow(row, sv, nSv, 2);
    [p1 - p2, p1 - p3, m1 - m2 - m3]
  }

  /** The residuals depend only on the port row and the state vector. */
  lemma ResidualsIgnoreFluidAndConfig(t: Tee, u: Tee, row: Slots, sv: seq<real>, nSv: nat, rho: real, rho': real)
    requires |row| == TeePorts && Readable(row, sv, nSv)
    ensures Residuals(t, row, sv, nSv, rho) == Residuals(u, row, sv, nSv, rho')
  {
  }

  /** Permuting the two outlet ports leaves the residuals zero exactly when they were. */
  lemma ResidualsOutletSymmetric(t: Tee, row: Slots, sv: seq<real>, nSv: nat, rho: real)
    requires |row| == TeePorts && Readable(row, sv, nSv)
    ensures var swapped := [row[0], row[2], row[1]];
            Residuals(t, swapped, sv, nSv, rho) == [0.0, 0.0, 0.0] <==>
            Residuals(t, row, sv, nSv, rho) == [0.0, 0.0, 0.0]
  {
    var swapped := [row[0], row[2], row[1]];
    assert Readable(swapped, sv, nSv);
    assert Pressure(swapped, sv, nSv, 1) == Pressure(row, sv, nSv, 2);
    assert Pressure(swapped, sv, nSv, 2) == Pressure(row, sv, nSv, 1);
    assert MassFlow(swapped, sv, nSv, 1) == MassFlow(row, sv, nSv, 2);
    assert MassFlow(swapped, sv, nSv, 2) == MassFlow(row, sv, nSv, 1);
  }
}
