/**
 * Values and predicates describing the element graph of a fluid circuit and
 * the node numbering the mesher produces.
 *
 * Elements live in an arena and are addressed by their index ("element id").
 * Each element has one slot per port in two rows of the arena:
 *   neighbors[e][p] -- the id of the element tied to port p of e, or None (an open port);
 *   ports[e][p]     -- the index of the network node assigned to port p of e, or None.
 */
module Topology {
  import opened Wrappers

  /** The two node classes of the network: an open port, or a junction between two ports. */
  datatype NodeKind = Boundary | Connection

  /** One entry per port of an element. */
  type Slots = seq<Option<nat>>

  /** The rows of a freshly constructed element: every slot empty. */
  function Open(n: nat): (s: Slots)
    ensures |s| == n
    ensures forall p :: 0 <= p < n ==> s[p] == None
  {
    seq(n, _ => None)
  }

  /**
   * Python's indexing of a list of length n: i in 0..n-1 is itself, i in
   * -n..-1 counts from the end, anything else raises.
   */
  function PyIndex(i: int, n: nat): (r: Option<nat>)
    ensures r.Some? <==> 0 <= i + n && i < n
    ensures r.Some? ==> r.value < n && (r.value == i || r.value == i + n)
  {
    if 0 <= i < n then Some(i) else if 0 <= i + n && i < 0 then Some(i + n) else None
  }

  /** The arena rows with the single slot (e, p) overwritten by v. */
  function SetSlot(rows: seq<Slots>, e: nat, p: nat, v: Option<nat>): seq<Slots>
    requires e < |rows| && p < |rows[e]|
  {
    rows[e := rows[e][p := v]]
  }

  /** SetSlot leaves every other slot as it was. */
  lemma SetSlotElsewhere(rows: seq<Slots>, e: nat, p: nat, v: Option<nat>, f: nat, q: nat)
    requires e < |rows| && p < |rows[e]| && f < |rows| && q < |rows[f]| && (f, q) != (e, p)
    ensures SetSlot(rows, e, p, v)[f][q] == rows[f][q]
  {
  }

  /** Position of the first slot holding x, or |s| when there is none. */
  function IndexOf(s: Slots, x: Option<nat>): (r: nat)
    ensures r <= |s|
    ensures r < |s| ==> s[r] == x
    ensures forall j :: 0 <= j < r ==> s[j] != x
  {
    if s == [] then 0
    else if s[0] == x then 0
    else 1 + IndexOf(s[1..], x)
  }

  /** IndexOf finds x no later than any position holding it. */
  lemma IndexOfFinds(s: Slots, x: Option<nat>, i: nat)
    requires i < |s| && s[i] == x
    ensures IndexOf(s, x) <= i < |s|
  {
  }

  /** IndexOf reports |s| when no slot holds x. */
  lemma IndexOfAbsent(s: Slots, x: Option<nat>)
    requires forall i :: 0 <= i < |s| ==> s[i] != x
    ensures IndexOf(s, x) == |s|
  {
  }

  // ---------------------------------------------------------------------------
  // Shape of the arena and the preconditions under which meshing is sound
  // ---------------------------------------------------------------------------

  /** `ports` has one row per element, as long as that element's `neighbors` row. */
  ghost predicate Shaped(nbrs: seq<Slots>, ports: seq<Slots>) {
    |ports| == |nbrs| && forall e :: 0 <= e < |nbrs| ==> |ports[e]| == |nbrs[e]|
  }

  /** Every neighbour reference names an element of the arena. */
  ghost predicate Linked(nbrs: seq<Slots>) {
    forall e, p :: 0 <= e < |nbrs| && 0 <= p < |nbrs[e]| && nbrs[e][p].Some? ==> nbrs[e][p].value < |nbrs|
  }

  /** No element is tied to itself. */
  ghost predicate NoSelfTies(nbrs: seq<Slots>) {
    forall e, p :: 0 <= e < |nbrs| && 0 <= p < |nbrs[e]| ==> nbrs[e][p] != Some(e)
  }

  /** Every tie is seen from both ends: the tied element has a port pointing back. */
  ghost predicate Reciprocal(nbrs: seq<Slots>)
    requires Linked(nbrs)
  {
    forall e, p :: 0 <= e < |nbrs| && 0 <= p < |nbrs[e]| && nbrs[e][p].Some? ==>
      IndexOf(nbrs[nbrs[e][p].value], Some(e)) < |nbrs[nbrs[e][p].value]|
  }

  /** No element has two ports tied to the same element (one back-slot per tie). */
  ghost predicate SingleTies(nbrs: seq<Slots>) {
    forall e, p, p' :: 0 <= e < |nbrs| && 0 <= p < p' < |nbrs[e]| && nbrs[e][p].Some? ==> nbrs[e][p'] != nbrs[e][p]
  }

  /** The adjacency that `tie_in` calls build when used as intended. */
  ghost predicate WellTied(nbrs: seq<Slots>) {
    Linked(nbrs) && NoSelfTies(nbrs) && Reciprocal(nbrs) && SingleTies(nbrs)
  }

  /** No port has been given a node yet. */
  ghost predicate Unmeshed(ports: seq<Slots>) {
    forall e, p :: 0 <= e < |ports| && 0 <= p < |ports[e]| ==> ports[e][p] == None
  }

  /** The preconditions of meshing: fresh ports over symmetric single ties without self-ties. */
  ghost predicate MeshReady(nbrs: seq<Slots>, ports: seq<Slots>) {
    Shaped(nbrs, ports) && WellTied(nbrs) && Unmeshed(ports)
  }

  // ---------------------------------------------------------------------------
  // Sequences of element ids
  // ---------------------------------------------------------------------------

  ghost predicate InArena(es: seq<nat>, size: nat) {
    forall i :: 0 <= i < |es| ==> es[i] < size
  }

  ghost predicate Distinct(es: seq<nat>) {
    forall i, j :: 0 <= i < j < |es| ==> es[i] != es[j]
  }

  /** A sequence without repeats has as many distinct values as entries. */
  lemma {:induction false} DistinctValues(es: seq<nat>)
    requires Distinct(es)
    ensures |(set i | 0 <= i < |es| :: es[i])| == |es|
  {
    if es != [] {
      var t := es[..|es| - 1];
      DistinctValues(t);
      var last := es[|es| - 1];
      assert (set i | 0 <= i < |es| :: es[i]) == (set i | 0 <= i < |t| :: t[i]) + {last};
      assert last !in (set i | 0 <= i < |t| :: t[i]);
    }
  }

  /** A set of ids below size has at most size members. */
  lemma {:induction false} BoundedSet(s: set<nat>, size: nat)
    requires forall x :: x in s ==> x < size
    ensures |s| <= size
  {
    if size > 0 {
      BoundedSet(s - {size - 1}, size - 1);
    }
  }

  /** Pigeonhole: distinct ids of an arena are no more than its elements. */
  lemma DistinctBounded(es: seq<nat>, size: nat)
    requires Distinct(es) && InArena(es, size)
    ensures |es| <= size
  {
    DistinctValues(es);
    BoundedSet(set i | 0 <= i < |es| :: es[i], size);
  }

  // ---------------------------------------------------------------------------
  // Properties of a node numbering
  // ---------------------------------------------------------------------------

  /** Tied slots hold the same node (or are both still empty). */
  ghost predicate Paired(nbrs: seq<Slots>, ports: seq<Slots>)
    requires Shaped(nbrs, ports)
  {
    forall e, p, f, q ::
      0 <= e < |nbrs| && 0 <= p < |nbrs[e]| && 0 <= f < |nbrs| && 0 <= q < |nbrs[f]| &&
      nbrs[e][p] == Some(f) && nbrs[f][q] == Some(e)
      ==> ports[e][p] == ports[f][q]
  }

  /** Every node index held by a port of an element of es is below bound. */
  ghost predicate Below(ports: seq<Slots>, es: seq<nat>, bound: nat)
    requires InArena(es, |ports|)
  {
    forall i, p :: 0 <= i < |es| && 0 <= p < |ports[es[i]]| && ports[es[i]][p].Some? ==> ports[es[i]][p].value < bound
  }

  /** An open port holds a Boundary node and a tied port a Connection node. */
  ghost predicate KindsMatch(nbrs: seq<Slots>, ports: seq<Slots>, es: seq<nat>, nodes: seq<NodeKind>)
    requires Shaped(nbrs, ports) && InArena(es, |nbrs|) && Below(ports, es, |nodes|)
  {
    forall i, p :: 0 <= i < |es| && 0 <= p < |ports[es[i]]| && ports[es[i]][p].Some? ==>
      nodes[ports[es[i]][p].value] == if nbrs[es[i]][p] == None then Boundary else Connection
  }

  /** Every port of every element of es holds a node index below |nodes|. */
  ghost predicate Complete(ports: seq<Slots>, es: seq<nat>, nodes: seq<NodeKind>)
    requires InArena(es, |ports|)
  {
    forall i, p :: 0 <= i < |es| && 0 <= p < |ports[es[i]]| ==> ports[es[i]][p].Some? && ports[es[i]][p].value < |nodes|
  }

  /** Every tie of an element of es leads to an element of es. */
  ghost predicate Closed(nbrs: seq<Slots>, es: seq<nat>)
    requires InArena(es, |nbrs|)
  {
    forall i, p :: 0 <= i < |es| && 0 <= p < |nbrs[es[i]]| && nbrs[es[i]][p].Some? ==> nbrs[es[i]][p].value in es
  }

  /** The number of ports a node of this kind is shared by. */
  function Weight(kind: NodeKind): (w: nat)
    ensures w == 1 || w == 2
  {
    if kind == Boundary then 1 else 2
  }

  /** Each node is held by exactly Weight(kind) ports of the elements of es. */
  ghost predicate Degrees(ports: seq<Slots>, es: seq<nat>, nodes: seq<NodeKind>)
    requires InArena(es, |ports|)
  {
    forall k :: 0 <= k < |nodes| ==> Held(ports, es, Some(k)) == Weight(nodes[k])
  }

  /**
   * es is in breadth-first discovery order from es[0]: element i > 0 was reached
   * from port via[i] of element parent[i] < i, no element before parent[i] is tied
   * to it, and the pairs (parent, via) increase along es.
   */
  ghost predicate BreadthFirst(nbrs: seq<Slots>, es: seq<nat>, parent: seq<nat>, via: seq<nat>)
    requires InArena(es, |nbrs|)
  {
    && |parent| == |es| && |via| == |es|
    && (forall i {:trigger parent[i]} :: 0 < i < |es| ==>
          parent[i] < i && via[i] < |nbrs[es[parent[i]]]| && nbrs[es[parent[i]]][via[i]] == Some(es[i]))
    && (forall i, j :: 0 < i < |es| && 0 <= j < parent[i] ==> Some(es[i]) !in nbrs[es[j]])
    && (forall i, i' :: 0 < i < i' < |es| ==>
          parent[i] < parent[i'] || (parent[i] == parent[i'] && via[i] < via[i']))
  }

  // ---------------------------------------------------------------------------
  // Counting
  // ---------------------------------------------------------------------------

  /** Number of slots of s holding x. */
  function Occurrences(s: Slots, x: Option<nat>): nat {
    if s == [] then 0 else (if s[0] == x then 1 else 0) + Occurrences(s[1..], x)
  }

  /** Number of slots holding x over the port rows of the elements of es. */
  ghost function Held(ports: seq<Slots>, es: seq<nat>, x: Option<nat>): nat
    requires InArena(es, |ports|)
  {
    if es == [] then 0 else Held(ports, es[..|es| - 1], x) + Occurrences(ports[es[|es| - 1]], x)
  }

  /** Total number of ports of the elements of es. */
  ghost function PortTotal(ports: seq<Slots>, es: seq<nat>): nat
    requires InArena(es, |ports|)
  {
    if es == [] then 0 else PortTotal(ports, es[..|es| - 1]) + |ports[es[|es| - 1]]|
  }

  /** Number of nodes of the given kind. */
  function CountKind(nodes: seq<NodeKind>, kind: NodeKind): nat {
    if nodes == [] then 0
    else CountKind(nodes[..|nodes| - 1], kind) + (if nodes[|nodes| - 1] == kind then 1 else 0)
  }

  lemma {:induction false} CountKindsCover(nodes: seq<NodeKind>)
    ensures CountKind(nodes, Boundary) + CountKind(nodes, Connection) == |nodes|
  {
    if nodes != [] {
      CountKindsCover(nodes[..|nodes| - 1]);
    }
  }

  lemma CountKindAppend(nodes: seq<NodeKind>, x: NodeKind, kind: NodeKind)
    ensures CountKind(nodes + [x], kind) == CountKind(nodes, kind) + (if x == kind then 1 else 0)
  {
    assert (nodes + [x])[..|nodes|] == nodes;
  }

  lemma {:induction false} OccurrencesAfterSet(s: Slots, p: nat, k: nat, x: Option<nat>)
    requires p < |s| && s[p] == None
    ensures Occurrences(s[p := Some(k)], x) ==
            Occurrences(s, x) + (if x == Some(k) then 1 else 0) - (if x == None then 1 else 0)
  {
    if p == 0 {
      assert s[p := Some(k)][1..] == s[1..];
    } else {
      assert s[p := Some(k)][1..] == s[1..][p - 1 := Some(k)];
      OccurrencesAfterSet(s[1..], p - 1, k, x);
    }
  }

  lemma {:induction false} OccurrencesUniform(s: Slots, x: Option<nat>)
    ensures (forall p :: 0 <= p < |s| ==> s[p] == x) ==> Occurrences(s, x) == |s|
    ensures (forall p :: 0 <= p < |s| ==> s[p] != x) ==> Occurrences(s, x) == 0
  {
    if s != [] {
      OccurrencesUniform(s[1..], x);
      assert forall p :: 0 <= p < |s| - 1 ==> s[1..][p] == s[p + 1];
    }
  }

  lemma {:induction false} HeldAfterSet(ports: seq<Slots>, es: seq<nat>, e: nat, p: nat, k: nat, x: Option<nat>)
    requires InArena(es, |ports|) && Distinct(es)
    requires e < |ports| && p < |ports[e]| && ports[e][p] == None
    ensures Held(SetSlot(ports, e, p, Some(k)), es, x) ==
            Held(ports, es, x) +
            (if e in es then (if x == Some(k) then 1 else 0) - (if x == None then 1 else 0) else 0)
  {
    if es != [] {
      var init, last := es[..|es| - 1], es[|es| - 1];
      assert es == init + [last];
      HeldAfterSet(ports, init, e, p, k, x);
      if last == e {
        OccurrencesAfterSet(ports[e], p, k, x);
        assert e !in init by {
          forall j | 0 <= j < |init| ensures init[j] != e {
            assert init[j] == es[j];
          }
        }
      }
    }
  }

  lemma {:induction false} HeldAbsent(ports: seq<Slots>, es: seq<nat>, x: Option<nat>)
    requires InArena(es, |ports|)
    requires forall i, p :: 0 <= i < |es| && 0 <= p < |ports[es[i]]| ==> ports[es[i]][p] != x
    ensures Held(ports, es, x) == 0
  {
    if es != [] {
      HeldAbsent(ports, es[..|es| - 1], x);
      OccurrencesUniform(ports[es[|es| - 1]], x);
    }
  }

  lemma HeldBelow(ports: seq<Slots>, es: seq<nat>, k: nat)
    requires InArena(es, |ports|) && Below(ports, es, k)
    ensures Held(ports, es, Some(k)) == 0
  {
    HeldAbsent(ports, es, Some(k));
  }

  lemma HeldAppend(ports: seq<Slots>, es: seq<nat>, e: nat, x: Option<nat>)
    requires InArena(es, |ports|) && e < |ports|
    ensures InArena(es + [e], |ports|)
    ensures Held(ports, es + [e], x) == Held(ports, es, x) + Occurrences(ports[e], x)
    ensures PortTotal(ports, es + [e]) == PortTotal(ports, es) + |ports[e]|
  {
    assert (es + [e])[..|es|] == es;
  }

  /** PortTotal only looks at the lengths of the rows of the elements of es. */
  lemma {:induction false} PortTotalFrame(ports: seq<Slots>, ports': seq<Slots>, es: seq<nat>)
    requires InArena(es, |ports|) && |ports'| == |ports|
    requires forall i :: 0 <= i < |es| ==> |ports'[es[i]]| == |ports[es[i]]|
    ensures PortTotal(ports', es) == PortTotal(ports, es)
  {
    if es != [] {
      PortTotalFrame(ports, ports', es[..|es| - 1]);
    }
  }

  /** With one back-slot per tie, two ports of an element tied to the same element are the same port. */
  lemma SingleTieAt(nbrs: seq<Slots>, e: nat, p: nat, p': nat)
    requires SingleTies(nbrs) && e < |nbrs| && p < |nbrs[e]| && p' < |nbrs[e]|
    requires nbrs[e][p].Some? && nbrs[e][p'] == nbrs[e][p]
    ensures p == p'
  {
  }
}
