/**
 * The solver front end (model-checkpoint.py): state-vector sizes, boundary
 * condition tables, and the assembly of the steady-state equations with its
 * equation-count gate.
 */
module FluidModel {
  import opened Wrappers
  import opened Topology
  import opened Meshing
  import opened Network

  /** What `add_BC` did. */
  datatype BCOutcome =
    | Assigned          // the table entry was written
    | RefusedBoundary   // as written: the node is a Boundary node; the call returns without writing
    | NotBoundary       // as intended: the node is not a Boundary node; the call returns without writing
    | InvalidType       // neither "pressure" nor "flowrate"; nothing is written
    | IndexOutOfRange   // the node index raises IndexError

  /** Every condition in a boundary-condition table sits on a Boundary node. */
  ghost predicate OnBoundary(nodes: seq<NodeKind>, table: seq<Option<real>>)
    requires |table| == |nodes|
  {
    forall i :: 0 <= i < |table| && table[i].Some? ==> nodes[i] == Boundary
  }

  /** A table after `add_BC` as written tries to write entry i: only a non-Boundary entry is written. */
  function WrittenAsIs(nodes: seq<NodeKind>, table: seq<Option<real>>, i: nat, v: real): (r: seq<Option<real>>)
    requires |table| == |nodes| && i < |nodes|
    ensures |r| == |table|
    ensures forall j :: 0 <= j < |r| && j != i ==> r[j] == table[j]
    ensures r[i] == Some(v) <==> nodes[i] != Boundary || table[i] == Some(v)
    ensures nodes[i] == Boundary ==> r[i] == table[i]
  {
    if nodes[i] == Boundary then table else table[i := Some(v)]
  }

  /** A table after the intended `add_BC` tries to write entry i: only a Boundary entry is written. */
  function WrittenIntended(nodes: seq<NodeKind>, table: seq<Option<real>>, i: nat, v: real): (r: seq<Option<real>>)
    requires |table| == |nodes| && i < |nodes|
    ensures |r| == |table|
    ensures forall j :: 0 <= j < |r| && j != i ==> r[j] == table[j]
    ensures r[i] == Some(v) <==> nodes[i] == Boundary || table[i] == Some(v)
    ensures nodes[i] != Boundary ==> r[i] == table[i]
  {
    if nodes[i] == Boundary then table[i := Some(v)] else table
  }

  /** The intended write keeps every condition on a Boundary node. */
  lemma WrittenIntendedOnBoundary(nodes: seq<NodeKind>, table: seq<Option<real>>, i: nat, v: real)
    requires |table| == |nodes| && i < |nodes|
    ensures OnBoundary(nodes, table) ==> OnBoundary(nodes, WrittenIntended(nodes, table, i, v))
  {
  }

  /**
   * The write as written breaks that: on a network with one Connection node
   * and an empty table, the condition lands on the Connection node.
   */
  lemma WrittenAsIsOffBoundary()
    ensures OnBoundary([Connection], [None])
    ensures !OnBoundary([Connection], WrittenAsIs([Connection], [None], 0, 1.0))
  {
    assert WrittenAsIs([Connection], [None], 0, 1.0)[0] == Some(1.0);
  }

  /** Why `build_steady_system` raised. */
  datatype SystemError = TooFewEquations | TooManyEquations

  /**
   * The equations of the elements es in order, element es[i] evaluated with
   * density rhos[i]; `eqns(e, rho)` is element e's `steady_flow_eqns` at the
   * current state vector.
   */
  function Assembled(eqns: (nat, real) -> seq<real>, es: seq<nat>, rhos: seq<real>): seq<real>
    requires |rhos| == |es|
  {
    if es == [] then [] else Assembled(eqns, es[..|es| - 1], rhos[..|es| - 1]) + eqns(es[|es| - 1], rhos[|es| - 1])
  }

  /** Each element contributes as many equations as it has ports. */
  ghost predicate OnePerPort(eqns: (nat, real) -> seq<real>, ports: seq<Slots>, es: seq<nat>, rhos: seq<real>)
    requires |rhos| == |es| && InArena(es, |ports|)
  {
    forall i :: 0 <= i < |es| ==> |eqns(es[i], rhos[i])| == |ports[es[i]]|
  }

  /** With one equation per port, the assembled system has one equation per port of the elements. */
  lemma {:induction false} AssembledLength(eqns: (nat, real) -> seq<real>, ports: seq<Slots>, es: seq<nat>, rhos: seq<real>)
    requires |rhos| == |es| && InArena(es, |ports|) && OnePerPort(eqns, ports, es, rhos)
    ensures |Assembled(eqns, es, rhos)| == PortTotal(ports, es)
  {
    if es != [] {
      var n := |es| - 1;
      assert OnePerPort(eqns, ports, es[..n], rhos[..n]) by {
        forall i | 0 <= i < n ensures |eqns(es[..n][i], rhos[..n][i])| == |ports[es[..n][i]]| {
          assert es[..n][i] == es[i] && rhos[..n][i] == rhos[i];
        }
      }
      AssembledLength(eqns, ports, es[..n], rhos[..n]);
    }
  }

  /**
   * On a meshed network whose elements each contribute one equation per
   * port, the system has Boundary + 2*Connection equations against
   * 2*(Boundary + Connection) state variables: never too many, and exactly
   * enough only when the mesh has no Boundary node.
   */
  lemma SteadyGate(nbrs: seq<Slots>, ports0: seq<Slots>, ports: seq<Slots>, source: nat,
                   es: seq<nat>, nodes: seq<NodeKind>, eqns: (nat, real) -> seq<real>, rhos: seq<real>)
    requires Meshed(nbrs, ports0, ports, source, es, nodes)
    requires |rhos| == |es| && OnePerPort(eqns, ports, es, rhos)
    ensures |Assembled(eqns, es, rhos)| <= 2 * |nodes|
    ensures |Assembled(eqns, es, rhos)| == 2 * |nodes| <==> CountKind(nodes, Boundary) == 0
  {
    AssembledLength(eqns, ports, es, rhos);
    CountKindsCover(nodes);
  }

  class Model {
    /** The circuit's elements and nodes, as meshed when the model was built. */
    const elements: seq<nat>
    const nodes: seq<NodeKind>
    /** `N_el`, `N_nodes`, `N_sv`. */
    const nEl: nat
    const nNodes: nat
    const nSv: nat
    /** Boundary-condition tables `P_bc` and `mdot_bc`, indexed by node. */
    const pBc: array<Option<real>>
    const mdotBc: array<Option<real>>
    /** Steady-state solution tables `P_steady` and `mdot_steady`. */
    const pSteady: array<Option<real>>
    const mdotSteady: array<Option<real>>
    /** Linearised dynamics matrices `M`, `C`, `K`. */
    const mass: array2<real>
    const damping: array2<real>
    const stiffness: array2<real>

    ghost predicate Valid()
      reads this
    {
      && nEl == |elements| && nNodes == |nodes| && nSv == 2 * nNodes
      && pBc.Length == nNodes && mdotBc.Length == nNodes
      && pSteady.Length == nNodes && mdotSteady.Length == nNodes
      && pBc != mdotBc
      && mass.Length0 == nSv && mass.Length1 == nSv
      && damping.Length0 == nSv && damping.Length1 == nSv
      && stiffness.Length0 == nSv && stiffness.Length1 == nSv
    }

    /**
     * `Model.__init__`: sizes from the circuit, two state variables per node,
     * empty tables of one entry per node and zero N_sv x N_sv matrices.
     */
    constructor (circuit: Network)
      ensures Valid()
      ensures elements == circuit.elements && nodes == circuit.nodes
      ensures fresh(pBc) && fresh(mdotBc) && fresh(pSteady) && fresh(mdotSteady)
      ensures fresh(mass) && fresh(damping) && fresh(stiffness)
      ensures forall i :: 0 <= i < nNodes ==> pBc[i] == None && mdotBc[i] == None
      ensures BCsOnBoundary()
      ensures forall i :: 0 <= i < nNodes ==> pSteady[i] == None && mdotSteady[i] == None
      ensures forall i, j :: 0 <= i < nSv && 0 <= j < nSv ==>
                mass[i, j] == 0.0 && damping[i, j] == 0.0 && stiffness[i, j] == 0.0
    {
      elements := circuit.elements;
      nodes := circuit.nodes;
      nEl := |circuit.elements|;
      nNodes := |circuit.nodes|;
      var sv := 2 * |circuit.nodes|;
      nSv := sv;
      pBc := new Option<real>[|circuit.nodes|](_ => None);
      mdotBc := new Option<real>[|circuit.nodes|](_ => None);
      pSteady := new Option<real>[|circuit.nodes|](_ => None);
      mdotSteady := new Option<real>[|circuit.nodes|](_ => None);
      mass := new real[sv, sv]((_, _) => 0.0);
      damping := new real[sv, sv]((_, _) => 0.0);
      stiffness := new real[sv, sv]((_, _) => 0.0);
    }

    /** Boundary conditions sit only on Boundary nodes: the corrected `add_BC` keeps this. */
    ghost predicate BCsOnBoundary()
      reads this, pBc, mdotBc
      requires Valid()
    {
      OnBoundary(nodes, pBc[..]) && OnBoundary(nodes, mdotBc[..])
    }

    /**
     * `add_BC` as written: a node index out of range raises. The guard is
     * inverted: a Boundary node is refused and a Connection node accepted.
     * "pressure" writes only P_bc[node], "flowrate" only mdot_bc[node]; any
     * other type writes nothing. Nothing stops a node from receiving both.
     */
    method AddBC(bcType: string, node: int, value: real) returns (outcome: BCOutcome)
      requires Valid()
      modifies pBc, mdotBc
      ensures PyIndex(node, nNodes).None? ==>
                outcome == IndexOutOfRange && pBc[..] == old(pBc[..]) && mdotBc[..] == old(mdotBc[..])
      ensures PyIndex(node, nNodes).Some? ==>
                var i := PyIndex(node, nNodes).value;
                && outcome == (if nodes[i] == Boundary then RefusedBoundary
                               else if bcType == "pressure" || bcType == "flowrate" then Assigned
                               else InvalidType)
                && pBc[..] == (if bcType == "pressure" then WrittenAsIs(nodes, old(pBc[..]), i, value) else old(pBc[..]))
                && mdotBc[..] == (if bcType == "flowrate" then WrittenAsIs(nodes, old(mdotBc[..]), i, value) else old(mdotBc[..]))
    {
      var index := PyIndex(node, |nodes|);
      if index.None? {
        return IndexOutOfRange;
      }
      var i := index.value;
      if nodes[i] == Boundary {
        return RefusedBoundary;
      }
      if bcType == "pressure" {
        pBc[i] := Some(value);
        outcome := Assigned;
      } else if bcType == "flowrate" {
        mdotBc[i] := Some(value);
        outcome := Assigned;
      } else {
        outcome := InvalidType;
      }
    }

    /**
     * `add_BC` as its comment and message intend: a Connection node is
     * refused as "not a boundary node", and only a Boundary node receives the
     * condition, so the tables keep their conditions on Boundary nodes.
     */
    method AddBoundaryCondition(bcType: string, node: int, value: real) returns (outcome: BCOutcome)
      requires Valid() && BCsOnBoundary()
      modifies pBc, mdotBc
      ensures BCsOnBoundary()
      ensures PyIndex(node, nNodes).None? ==>
                outcome == IndexOutOfRange && pBc[..] == old(pBc[..]) && mdotBc[..] == old(mdotBc[..])
      ensures PyIndex(node, nNodes).Some? ==>
                var i := PyIndex(node, nNodes).value;
                && outcome == (if nodes[i] != Boundary then NotBoundary
                               else if bcType == "pressure" || bcType == "flowrate" then Assigned
                               else InvalidType)
                && pBc[..] == (if bcType == "pressure" then WrittenIntended(nodes, old(pBc[..]), i, value) else old(pBc[..]))
                && mdotBc[..] == (if bcType == "flowrate" then WrittenIntended(nodes, old(mdotBc[..]), i, value) else old(mdotBc[..]))
    {
      var index := PyIndex(node, |nodes|);
      if index.None? {
        return IndexOutOfRange;
      }
      var i := index.value;
      if nodes[i] != Boundary {
        return NotBoundary;
      }
      if bcType == "pressure" {
        WrittenIntendedOnBoundary(nodes, pBc[..], i, value);
        pBc[i] := Some(value);
        outcome := Assigned;
      } else if bcType == "flowrate" {
        WrittenIntendedOnBoundary(nodes, mdotBc[..], i, value);
        mdotBc[i] := Some(value);
        outcome := Assigned;
      } else {
        outcome := InvalidType;
      }
    }

    /**
     * `build_steady_system`: the equations of every element, in element
     * order, each element evaluated with its own fluid density. Fewer or more
     * than N_sv equations raise; otherwise the system is returned.
     */
    method BuildSteadySystem(eqns: (nat, real) -> seq<real>, rhos: seq<real>) returns (r: Result<seq<real>, SystemError>)
      requires Valid() && |rhos| == nEl
      ensures r == Err(TooFewEquations) <==> |Assembled(eqns, elements, rhos)| < nSv
      ensures r == Err(TooManyEquations) <==> |Assembled(eqns, elements, rhos)| > nSv
      ensures r.Ok? ==> r.value == Assembled(eqns, elements, rhos) && |r.value| == nSv
    {
      var system: seq<real> := [];
      for i := 0 to |elements|
        invariant system == Assembled(eqns, elements[..i], rhos[..i])
      {
        assert elements[..i + 1][..i] == elements[..i] && rhos[..i + 1][..i] == rhos[..i];
        system := system + eqns(elements[i], rhos[i]);
      }
      assert elements[..|elements|] == elements && rhos[..|elements|] == rhos;
      if |system| < nSv {
        r := Err(TooFewEquations);
      } else if |system| > nSv {
        r := Err(TooManyEquations);
      } else {
        r := Ok(system);
      }
    }
  }
}
