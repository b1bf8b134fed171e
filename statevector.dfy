/**
 * The steady-state vector the element residual functions read from.
 *
 * The vector holds N_sv = 2*N_nodes entries: the pressure of node k at
 * index k and its mass flow at index N_sv/2 + k. An element reads the
 * entries of the nodes its ports sit on. The program computes the flow
 * offset with Python's `/`, which yields a float; here it is the integer
 * nSv / 2.
 */
module StateVector {
  import opened Wrappers
  import opened Topology
  import opened Meshing

  /** Every port of the row sits on a node whose pressure and mass flow both lie inside sv. */
  predicate Readable(row: Slots, sv: seq<real>, nSv: nat)
  {
    forall p :: 0 <= p < |row| ==> row[p].Some? && row[p].value < |sv| && nSv / 2 + row[p].value < |sv|
  }

  /**
   * `statevars[self.ports[p]]`: the pressure at the node of port p. It is a
   * property of the node: every port on that node reads the same value.
   */
  function Pressure(row: Slots, sv: seq<real>, nSv: nat, p: nat): (r: real)
    requires Readable(row, sv, nSv) && p < |row|
    ensures forall q :: 0 <= q < |row| && row[q] == row[p] ==> r == sv[row[q].value]
  {
    sv[row[p].value]
  }

  /**
   * `statevars[N_sv/2 + self.ports[p]]`: the mass flow at the node of port p,
   * read from the second half of the vector, past the N_sv/2 pressures.
   * Every port on that node reads the same value.
   */
  function MassFlow(row: Slots, sv: seq<real>, nSv: nat, p: nat): (r: real)
    requires Readable(row, sv, nSv) && p < |row|
    ensures forall q :: 0 <= q < |row| && row[q] == row[p] ==> r == sv[nSv / 2 + row[q].value]
  {
    sv[nSv / 2 + row[p].value]
  }

  /**
   * On a meshed network, with the state vector sized N_sv = 2*N_nodes as the
   * model sizes it, every port of every reached element can be read: its
   * node's pressure sits in the first half of the vector and its mass flow
   * in the second half.
   */
  lemma MeshedReadable(nbrs: seq<Slots>, ports0: seq<Slots>, ports: seq<Slots>, source: nat,
                       es: seq<nat>, nodes: seq<NodeKind>, sv: seq<real>, nSv: nat)
    requires Meshed(nbrs, ports0, ports, source, es, nodes)
    requires nSv == 2 * |nodes| && |sv| == nSv
    ensures forall i :: 0 <= i < |es| ==> Readable(ports[es[i]], sv, nSv)
    ensures forall i, p :: 0 <= i < |es| && 0 <= p < |ports[es[i]]| ==>
              ports[es[i]][p].Some? && ports[es[i]][p].value < nSv / 2
  {
    forall i | 0 <= i < |es| ensures Readable(ports[es[i]], sv, nSv) {
      assert Complete(ports, es, nodes);
    }
  }

  /**
   * Two readable ports whose node indices lie below N_sv/2 read the same
   * pressure entry, and the same mass-flow entry, exactly when they name the
   * same node, and a pressure entry never coincides with a mass-flow entry.
   */
  lemma RowEntries(a: Slots, b: Slots, p: nat, q: nat, sv: seq<real>, nSv: nat)
    requires Readable(a, sv, nSv) && Readable(b, sv, nSv)
    requires p < |a| && q < |b|
    requires a[p].value < nSv / 2 && b[q].value < nSv / 2
    ensures a[p] == b[q] <==> a[p].value == b[q].value
    ensures a[p] == b[q] <==> nSv / 2 + a[p].value == nSv / 2 + b[q].value
    ensures a[p].value != nSv / 2 + b[q].value
    ensures a[p] == b[q] ==> Pressure(a, sv, nSv, p) == Pressure(b, sv, nSv, q) &&
                              MassFlow(a, sv, nSv, p) == MassFlow(b, sv, nSv, q)
  {
  }

  /**
   * On a meshed network, ports of any two reached elements read the same
   * pressure entry, and the same mass-flow entry, exactly when they sit on
   * the same node; a pressure entry never coincides with a mass-flow entry.
   */
  lemma SharedEntries(nbrs: seq<Slots>, ports0: seq<Slots>, ports: seq<Slots>, source: nat,
                      es: seq<nat>, nodes: seq<NodeKind>, sv: seq<real>, nSv: nat, i: nat, p: nat, j: nat, q: nat)
    requires Meshed(nbrs, ports0, ports, source, es, nodes)
    requires nSv == 2 * |nodes| && |sv| == nSv
    requires i < |es| && p < |ports[es[i]]| && j < |es| && q < |ports[es[j]]|
    ensures Readable(ports[es[i]], sv, nSv) && Readable(ports[es[j]], sv, nSv)
    ensures ports[es[i]][p] == ports[es[j]][q] <==> ports[es[i]][p].value == ports[es[j]][q].value
    ensures ports[es[i]][p] == ports[es[j]][q] <==> nSv / 2 + ports[es[i]][p].value == nSv / 2 + ports[es[j]][q].value
    ensures ports[es[i]][p].value != nSv / 2 + ports[es[j]][q].value
    ensures ports[es[i]][p] == ports[es[j]][q] ==>
              Pressure(ports[es[i]], sv, nSv, p) == Pressure(ports[es[j]], sv, nSv, q) &&
              MassFlow(ports[es[i]], sv, nSv, p) == MassFlow(ports[es[j]], sv, nSv, q)
  {
    MeshedReadable(nbrs, ports0, ports, source, es, nodes, sv, nSv);
    RowEntries(ports[es[i]], ports[es[j]], p, q, sv, nSv);
  }

  /**
   * On a meshed network, the two ends of a tie read the same pressure and
   * the same mass flow: the tie's Connection node is shared by both.
   */
  lemma TieEndsShareState(nbrs: seq<Slots>, ports0: seq<Slots>, ports: seq<Slots>, source: nat,
                          es: seq<nat>, nodes: seq<NodeKind>, sv: seq<real>, nSv: nat, i: nat, p: nat, f: nat, q: nat)
    requires Meshed(nbrs, ports0, ports, source, es, nodes)
    requires nSv == 2 * |nodes| && |sv| == nSv
    requires i < |es| && p < |nbrs[es[i]]| && f < |nbrs| && q < |nbrs[f]|
    requires nbrs[es[i]][p] == Some(f) && nbrs[f][q] == Some(es[i])
    ensures f in es && Readable(ports[es[i]], sv, nSv) && Readable(ports[f], sv, nSv)
    ensures Pressure(ports[es[i]], sv, nSv, p) == Pressure(ports[f], sv, nSv, q)
    ensures MassFlow(ports[es[i]], sv, nSv, p) == MassFlow(ports[f], sv, nSv, q)
  {
    var e := es[i];
    assert f in es;
    var j :| 0 <= j < |es| && es[j] == f;
    assert ports[e][p] == ports[f][q];
    SharedEntries(nbrs, ports0, ports, source, es, nodes, sv, nSv, i, p, j, q);
  }
}
