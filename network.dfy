/**
 * The element objects of a fluid circuit and the mesher that numbers the
 * nodes between them (network.py).
 *
 * Python element objects are modelled by an arena: element ids index two rows
 * of slots, `neighbors` (which element each port is tied to) and `ports`
 * (which node each port sits on). The mesher reads the first and writes the
 * second.
 */
module Network {
  import opened Wrappers
  import opened Topology
  import opened Meshing

  // ---------------------------------------------------------------------------
  // Specification functions for the in-place operations
  // ---------------------------------------------------------------------------

  /**
   * The neighbour rows after the first m ports of element e have been
   * detached by `remove`: e's slots 0..m-1 are cleared, and so is every slot
   * of another element that refers to e, in the rows of the elements those
   * m ports were tied to.
   */
  function Detached(nbrs: seq<Slots>, e: nat, m: nat): (r: seq<Slots>)
    requires e < |nbrs| && m <= |nbrs[e]|
    ensures |r| == |nbrs| && forall f :: 0 <= f < |nbrs| ==> |r[f]| == |nbrs[f]|
  {
    seq(|nbrs|, f requires 0 <= f < |nbrs| =>
      if f == e then
        seq(|nbrs[e]|, i requires 0 <= i < |nbrs[e]| => if i < m then None else nbrs[e][i])
      else
        seq(|nbrs[f]|, i requires 0 <= i < |nbrs[f]| =>
          if nbrs[f][i] == Some(e) && Some(f) in nbrs[e][..m] then None else nbrs[f][i]))
  }

  /** Before the first pass nothing is detached. */
  lemma DetachedNone(nbrs: seq<Slots>, e: nat)
    requires e < |nbrs|
    ensures Detached(nbrs, e, 0) == nbrs
  {
    var d := Detached(nbrs, e, 0);
    forall f | 0 <= f < |nbrs| ensures d[f] == nbrs[f] {
      assert d[f] == nbrs[f];
    }
  }

  /** No port of element e is tied to e itself. */
  ghost predicate NoSelfTieAt(nbrs: seq<Slots>, e: nat)
    requires e < |nbrs|
  {
    forall p :: 0 <= p < |nbrs[e]| ==> nbrs[e][p] != Some(e)
  }

  /**
   * A complete `remove` of e (every port tied, none to itself) leaves no slot
   * anywhere referring to e, and keeps the adjacency well tied.
   */
  lemma DetachedComplete(nbrs: seq<Slots>, e: nat)
    requires WellTied(nbrs) && e < |nbrs|
    ensures var r := Detached(nbrs, e, |nbrs[e]|);
            forall f, i :: 0 <= f < |r| && 0 <= i < |r[f]| ==> r[f][i] != Some(e)
    ensures WellTied(Detached(nbrs, e, |nbrs[e]|))
  {
    var r := Detached(nbrs, e, |nbrs[e]|);
    assert nbrs[e][..|nbrs[e]|] == nbrs[e];
    DetachedNoRefs(nbrs, e, r);
    ClearingKeepsTies(nbrs, r);
    DetachedReciprocal(nbrs, e, r);
  }

  /** After a complete pass no slot refers to e. */
  lemma DetachedNoRefs(nbrs: seq<Slots>, e: nat, r: seq<Slots>)
    requires Linked(nbrs) && Reciprocal(nbrs) && e < |nbrs|
    requires r == Detached(nbrs, e, |nbrs[e]|) && nbrs[e][..|nbrs[e]|] == nbrs[e]
    ensures forall f, i :: 0 <= f < |r| && 0 <= i < |r[f]| ==> r[f][i] != Some(e)
  {
    forall f, i | 0 <= f < |r| && 0 <= i < |r[f]| && f != e && nbrs[f][i] == Some(e)
      ensures r[f][i] == None
    {
      var q := IndexOf(nbrs[e], Some(f));
      assert nbrs[e][q] == Some(f);
    }
  }

  /** Clearing slots, and nothing else, keeps references in range, free of self ties and single. */
  lemma ClearingKeepsTies(nbrs: seq<Slots>, r: seq<Slots>)
    requires Linked(nbrs) && NoSelfTies(nbrs) && SingleTies(nbrs)
    requires |r| == |nbrs| && forall f :: 0 <= f < |nbrs| ==> |r[f]| == |nbrs[f]|
    requires forall f, i :: 0 <= f < |r| && 0 <= i < |r[f]| ==> r[f][i] == None || r[f][i] == nbrs[f][i]
    ensures Linked(r) && NoSelfTies(r) && SingleTies(r)
  {
  }

  /** Every tie left after a complete pass is still answered by a tie back. */
  lemma DetachedReciprocal(nbrs: seq<Slots>, e: nat, r: seq<Slots>)
    requires WellTied(nbrs) && e < |nbrs|
    requires r == Detached(nbrs, e, |nbrs[e]|) && nbrs[e][..|nbrs[e]|] == nbrs[e]
    requires Linked(r)
    ensures Reciprocal(r)
  {
    forall f, i | 0 <= f < |r| && 0 <= i < |r[f]| && r[f][i].Some?
      ensures IndexOf(r[r[f][i].value], Some(f)) < |r[r[f][i].value]|
    {
      var g := r[f][i].value;
      assert f != e && g != e && nbrs[f][i] == Some(g);
      var q := IndexOf(nbrs[g], Some(f));
      assert nbrs[g][q] == Some(f);
      assert r[g][q] == Some(f);
      IndexOfFinds(r[g], Some(f), q);
    }
  }

  /** Tying two open ports of two distinct, not yet tied elements keeps the adjacency well tied. */
  lemma TieKeepsWellTied(nbrs: seq<Slots>, e: nat, f: nat, p: nat, q: nat)
    requires WellTied(nbrs) && e < |nbrs| && f < |nbrs| && e != f
    requires p < |nbrs[e]| && q < |nbrs[f]| && nbrs[e][p] == None && nbrs[f][q] == None
    requires Some(f) !in nbrs[e]
    ensures WellTied(SetSlot(SetSlot(nbrs, e, p, Some(f)), f, q, Some(e)))
  {
    assert Some(e) !in nbrs[f];
    TieKeepsReciprocal(nbrs, e, f, p, q);
    TieKeepsSingleTies(nbrs, e, f, p, q);
  }

  lemma TieKeepsReciprocal(nbrs: seq<Slots>, e: nat, f: nat, p: nat, q: nat)
    requires Linked(nbrs) && Reciprocal(nbrs) && e < |nbrs| && f < |nbrs|
    requires p < |nbrs[e]| && q < |nbrs[f]| && nbrs[e][p] == None && nbrs[f][q] == None
    ensures Linked(SetSlot(SetSlot(nbrs, e, p, Some(f)), f, q, Some(e)))
    ensures Reciprocal(SetSlot(SetSlot(nbrs, e, p, Some(f)), f, q, Some(e)))
  {
    var r: seq<Slots> := SetSlot(SetSlot(nbrs, e, p, Some(f)), f, q, Some(e));
    assert Linked(r);
    forall g, i | 0 <= g < |r| && 0 <= i < |r[g]| && r[g][i].Some?
      ensures IndexOf(r[r[g][i].value], Some(g)) < |r[r[g][i].value]|
    {
      var h := r[g][i].value;
      if g == f && i == q {
        IndexOfFinds(r[e], Some(f), p);
      } else if g == e && i == p {
        IndexOfFinds(r[f], Some(e), q);
      } else {
        assert nbrs[g][i] == Some(h);
        var j := IndexOf(nbrs[h], Some(g));
        assert nbrs[h][j] == Some(g);
        SetSlotElsewhere(nbrs, e, p, Some(f), h, j);
        SetSlotElsewhere(SetSlot(nbrs, e, p, Some(f)), f, q, Some(e), h, j);
        IndexOfFinds(r[h], Some(g), j);
      }
    }
  }

  lemma TieKeepsSingleTies(nbrs: seq<Slots>, e: nat, f: nat, p: nat, q: nat)
    requires SingleTies(nbrs) && NoSelfTies(nbrs) && e < |nbrs| && f < |nbrs| && e != f
    requires p < |nbrs[e]| && q < |nbrs[f]|
    requires Some(f) !in nbrs[e] && Some(e) !in nbrs[f]
    ensures NoSelfTies(SetSlot(SetSlot(nbrs, e, p, Some(f)), f, q, Some(e)))
    ensures SingleTies(SetSlot(SetSlot(nbrs, e, p, Some(f)), f, q, Some(e)))
  {
    var r: seq<Slots> := SetSlot(SetSlot(nbrs, e, p, Some(f)), f, q, Some(e));
    forall g, i, i' | 0 <= g < |r| && 0 <= i < i' < |r[g]| && r[g][i].Some? ensures r[g][i'] != r[g][i] {
      if g == e && (i == p || i' == p) {
        assert r[g][i] == Some(f) || r[g][i'] == Some(f);
      } else if g == f && (i == q || i' == q) {
        assert r[g][i] == Some(e) || r[g][i'] == Some(e);
      } else {
        assert r[g][i] == nbrs[g][i] && r[g][i'] == nbrs[g][i'];
      }
    }
  }

  // ---------------------------------------------------------------------------
  // The arena of element objects
  // ---------------------------------------------------------------------------

  class Arena {
    /** neighbors[e][p]: the element tied to port p of element e, or None. */
    var neighbors: seq<Slots>
    /** ports[e][p]: the index of the node port p of element e sits on, or None. */
    var ports: seq<Slots>

    ghost predicate Valid()
      reads this
    {
      Shaped(neighbors, ports) && Linked(neighbors)
    }

    constructor ()
      ensures Valid() && neighbors == [] && ports == []
    {
      neighbors, ports := [], [];
    }

    /** `element.__init__`: a new element whose num_ports neighbour and node slots are all empty. */
    method NewElement(numPorts: nat) returns (id: nat)
      requires Valid()
      modifies this
      ensures Valid()
      ensures id == |old(neighbors)|
      ensures neighbors == old(neighbors) + [Open(numPorts)] && ports == old(ports) + [Open(numPorts)]
    {
      id := |neighbors|;
      neighbors := neighbors + [Open(numPorts)];
      ports := ports + [Open(numPorts)];
    }

    /**
     * `tie_in`: element self's port selfIndex is tied to element other, then
     * other's port otherIndex to self. Indices follow Python's list indexing,
     * so a negative index counts from the end. An out-of-range index raises;
     * when only otherIndex is out of range the first write has already
     * happened. A previous occupant of either slot is overwritten without
     * being unlinked.
     */
    method TieIn(self: nat, other: nat, selfIndex: int, otherIndex: int) returns (ok: bool)
      requires Valid() && self < |neighbors| && other < |neighbors|
      modifies this
      ensures Valid() && ports == old(ports)
      ensures ok <==> PyIndex(selfIndex, |old(neighbors)[self]|).Some? && PyIndex(otherIndex, |old(neighbors)[other]|).Some?
      ensures PyIndex(selfIndex, |old(neighbors)[self]|).None? ==> neighbors == old(neighbors)
      ensures PyIndex(selfIndex, |old(neighbors)[self]|).Some? ==>
                var mid := SetSlot(old(neighbors), self, PyIndex(selfIndex, |old(neighbors)[self]|).value, Some(other));
                if ok then neighbors == SetSlot(mid, other, PyIndex(otherIndex, |old(neighbors)[other]|).value, Some(self))
                else neighbors == mid
    {
      var i := PyIndex(selfIndex, |neighbors[self]|);
      if i.None? {
        return false;
      }
      neighbors := SetSlot(neighbors, self, i.value, Some(other));
      var j := PyIndex(otherIndex, |neighbors[other]|);
      if j.None? {
        return false;
      }
      neighbors := SetSlot(neighbors, other, j.value, Some(self));
      ok := true;
    }

    /**
     * `remove`: for each port n of e in turn, every slot of the tied element
     * that refers to e is cleared, then e's own slot n. Reaching an untied
     * port raises, with the earlier ports already detached. The node slots
     * are not touched.
     */
    method Remove(e: nat) returns (ok: bool)
      requires Valid() && e < |neighbors|
      modifies this
      ensures Valid() && ports == old(ports)
      ensures NoSelfTieAt(old(neighbors), e) ==>
                var m := IndexOf(old(neighbors)[e], None);
                (ok <==> m == |old(neighbors)[e]|) && neighbors == Detached(old(neighbors), e, m)
    {
      ghost var nbrs0 := neighbors;
      DetachedNone(nbrs0, e);
      var n := 0;
      while n < |neighbors[e]|
        invariant Valid() && ports == old(ports) && |neighbors| == |nbrs0|
        invariant forall f :: 0 <= f < |nbrs0| ==> |neighbors[f]| == |nbrs0[f]|
        invariant n <= |nbrs0[e]|
        invariant NoSelfTieAt(nbrs0, e) ==>
                    (forall p :: 0 <= p < n ==> nbrs0[e][p].Some?) && neighbors == Detached(nbrs0, e, n)
      {
        if neighbors[e][n] == None {
          if NoSelfTieAt(nbrs0, e) {
            FirstOpenPort(nbrs0[e], n);
          }
          return false;
        }
        var f := neighbors[e][n].value;
        DetachStep(this, e, n, f, nbrs0);
        n := n + 1;
      }
      ok := true;
      if NoSelfTieAt(nbrs0, e) {
        FirstOpenPort(nbrs0[e], n);
      }
    }
  }

  /** When ports 0..n-1 are all tied and port n is open (or there is none), n is the first open port. */
  lemma FirstOpenPort(s: Slots, n: nat)
    requires n <= |s| && (forall p :: 0 <= p < n ==> s[p].Some?) && (n < |s| ==> s[n] == None)
    ensures IndexOf(s, None) == n
  {
    if n < |s| {
      IndexOfFinds(s, None, n);
    } else {
      IndexOfAbsent(s, None);
    }
  }

  /**
   * One pass of `remove`'s outer loop: the slots of f referring to e are
   * cleared, then e's slot n.
   */
  method DetachStep(arena: Arena, e: nat, n: nat, f: nat, ghost nbrs0: seq<Slots>)
    requires arena.Valid() && e < |arena.neighbors| && n < |arena.neighbors[e]|
    requires arena.neighbors[e][n] == Some(f)
    requires |arena.neighbors| == |nbrs0| && forall g :: 0 <= g < |nbrs0| ==> |arena.neighbors[g]| == |nbrs0[g]|
    requires NoSelfTieAt(nbrs0, e) ==>
               (forall p :: 0 <= p < n ==> nbrs0[e][p].Some?) && arena.neighbors == Detached(nbrs0, e, n)
    modifies arena`neighbors
    ensures arena.Valid()
    ensures |arena.neighbors| == |nbrs0| && forall g :: 0 <= g < |nbrs0| ==> |arena.neighbors[g]| == |nbrs0[g]|
    ensures NoSelfTieAt(nbrs0, e) ==>
              (forall p :: 0 <= p < n + 1 ==> nbrs0[e][p].Some?) && arena.neighbors == Detached(nbrs0, e, n + 1)
  {
    ghost var start := arena.neighbors;
    var i := 0;
    while i < |arena.neighbors[f]|
      invariant arena.Valid() && |arena.neighbors| == |start|
      invariant forall g :: 0 <= g < |start| ==> |arena.neighbors[g]| == |start[g]|
      invariant i <= |start[f]|
      invariant forall g :: 0 <= g < |start| && g != f ==> arena.neighbors[g] == start[g]
      invariant forall j :: 0 <= j < |start[f]| ==>
                  arena.neighbors[f][j] == if j < i && start[f][j] == Some(e) then None else start[f][j]
    {
      if arena.neighbors[f][i] == Some(e) {
        arena.neighbors := SetSlot(arena.neighbors, f, i, None);
      }
      i := i + 1;
    }
    arena.neighbors := SetSlot(arena.neighbors, e, n, None);
    if NoSelfTieAt(nbrs0, e) {
      DetachedNext(nbrs0, e, n, start, arena.neighbors);
    }
  }

  /** The arena after one more pass of `remove` is Detached(nbrs0, e, n + 1). */
  lemma DetachedNext(nbrs0: seq<Slots>, e: nat, n: nat, start: seq<Slots>, final: seq<Slots>)
    requires e < |nbrs0| && n < |nbrs0[e]| && NoSelfTieAt(nbrs0, e)
    requires forall p :: 0 <= p < n ==> nbrs0[e][p].Some?
    requires start == Detached(nbrs0, e, n) && start[e][n].Some?
    requires var f := start[e][n].value;
             f < |start| && |final| == |start| &&
             (forall g :: 0 <= g < |start| ==> |final[g]| == |start[g]|) &&
             (forall g :: 0 <= g < |start| && g != f && g != e ==> final[g] == start[g]) &&
             (forall j :: 0 <= j < |start[e]| ==> final[e][j] == if j == n then None else start[e][j]) &&
             (f != e ==> forall j :: 0 <= j < |start[f]| ==>
                final[f][j] == if start[f][j] == Some(e) then None else start[f][j])
    ensures forall p :: 0 <= p < n + 1 ==> nbrs0[e][p].Some?
    ensures final == Detached(nbrs0, e, n + 1)
  {
    var f := start[e][n].value;
    var d := Detached(nbrs0, e, n + 1);
    assert nbrs0[e][n] == Some(f) && f != e;
    assert nbrs0[e][..n + 1] == nbrs0[e][..n] + [Some(f)];
    forall g | 0 <= g < |d| ensures final[g] == d[g] {
      if g == e {
        assert final[g] == d[g];
      } else if g == f {
        assert final[g] == d[g];
      } else {
        forall j | 0 <= j < |d[g]| ensures final[g][j] == d[g][j] {
          if nbrs0[g][j] == Some(e) && Some(g) in nbrs0[e][..n + 1] {
            assert Some(g) in nbrs0[e][..n];
          }
        }
      }
    }
  }

  // ---------------------------------------------------------------------------
  // The network: breadth-first meshing
  // ---------------------------------------------------------------------------

  /** A strictly increasing sequence of indices. */
  ghost predicate Ascending(s: seq<nat>) {
    forall i, j :: 0 <= i < j < |s| ==> s[i] < s[j]
  }

  /** The indices below `n` of the nodes of the given kind, in increasing order. */
  function KindIndices(nodes: seq<NodeKind>, kind: NodeKind, n: nat): seq<nat>
    requires n <= |nodes|
  {
    if n == 0 then []
    else KindIndices(nodes, kind, n - 1) + (if nodes[n - 1] == kind then [n - 1] else [])
  }

  /** Every listed index is a node of that kind below `n`, and every such node is listed. */
  lemma {:induction false} KindIndicesExact(nodes: seq<NodeKind>, kind: NodeKind, n: nat)
    requires n <= |nodes|
    ensures forall k :: k in KindIndices(nodes, kind, n) <==> 0 <= k < n && nodes[k] == kind
  {
    if n > 0 {
      KindIndicesExact(nodes, kind, n - 1);
    }
  }

  /** The list is strictly increasing, so it names each node once. */
  lemma {:induction false} KindIndicesAscending(nodes: seq<NodeKind>, kind: NodeKind, n: nat)
    requires n <= |nodes|
    ensures Ascending(KindIndices(nodes, kind, n))
  {
    if n > 0 {
      KindIndicesAscending(nodes, kind, n - 1);
      KindIndicesExact(nodes, kind, n - 1);
      var s := KindIndices(nodes, kind, n - 1);
      assert forall i :: 0 <= i < |s| ==> s[i] in s;
    }
  }

  /** The list is as long as the count of nodes of that kind. */
  lemma {:induction false} KindIndicesCount(nodes: seq<NodeKind>, kind: NodeKind, n: nat)
    requires n <= |nodes|
    ensures |KindIndices(nodes, kind, n)| == CountKind(nodes[..n], kind)
  {
    if n > 0 {
      KindIndicesCount(nodes, kind, n - 1);
      assert nodes[..n][..n - 1] == nodes[..n - 1];
    }
  }

  class Network {
    /** The elements reached from the source, in discovery order. */
    var elements: seq<nat>
    /** The nodes, in creation order; a node's index is its position here. */
    var nodes: seq<NodeKind>

    /** `network.__init__`: mesh from source. */
    constructor (arena: Arena, source: nat)
      requires MeshReady(arena.neighbors, arena.ports) && source < |arena.neighbors|
      modifies arena`ports
      ensures Meshed(arena.neighbors, old(arena.ports), arena.ports, source, elements, nodes)
    {
      elements, nodes := [source], [];
      new;
      Mesh(arena, source);
    }

    /** `update_boundary`: a new Boundary node, assigned to port n of top. */
    method UpdateBoundary(arena: Arena, top: nat, n: nat)
      requires top < |arena.ports| && n < |arena.ports[top]|
      modifies this`nodes, arena`ports
      ensures nodes == old(nodes) + [Boundary]
      ensures arena.ports == SetSlot(old(arena.ports), top, n, Some(|old(nodes)|))
    {
      nodes := nodes + [Boundary];
      arena.ports := SetSlot(arena.ports, top, n, Some(|nodes| - 1));
    }

    /**
     * `update_connection`: a new Connection node, assigned to port n of top
     * and to every port of nb whose neighbour is top.
     */
    method UpdateConnection(arena: Arena, top: nat, nb: nat, n: nat)
      requires Shaped(arena.neighbors, arena.ports)
      requires top < |arena.ports| && n < |arena.ports[top]| && nb < |arena.ports|
      modifies this`nodes, arena`ports
      ensures nodes == old(nodes) + [Connection]
      ensures arena.ports == MarkBack(SetSlot(old(arena.ports), top, n, Some(|old(nodes)|)), arena.neighbors, nb, top, |old(nodes)|)
    {
      nodes := nodes + [Connection];
      var k := |nodes| - 1;
      arena.ports := SetSlot(arena.ports, top, n, Some(k));
      ghost var start := arena.ports;
      var m := 0;
      while m < |arena.neighbors[nb]|
        invariant nodes == old(nodes) + [Connection]
        invariant m <= |arena.neighbors[nb]| && |arena.ports| == |start|
        invariant forall g :: 0 <= g < |start| && g != nb ==> arena.ports[g] == start[g]
        invariant |arena.ports[nb]| == |start[nb]|
        invariant forall j :: 0 <= j < |start[nb]| ==>
                    arena.ports[nb][j] == if j < m && arena.neighbors[nb][j] == Some(top) then Some(k) else start[nb][j]
      {
        if arena.neighbors[nb][m] == Some(top) {
          arena.ports := SetSlot(arena.ports, nb, m, Some(k));
        }
        m := m + 1;
      }
      assert arena.ports[nb] == MarkBack(start, arena.neighbors, nb, top, k)[nb];
    }

    /**
     * `mesh`: breadth-first traversal from source. Each port of the element at
     * the head of the queue is, in order: given a new Boundary node if it is
     * open; tied, through a new Connection node, to a neighbour not yet
     * discovered, which is then appended to the elements and the queue; or
     * tied, through a new Connection node, to a discovered neighbour, unless
     * it already holds a node. Every element is appended to the elements and
     * to the queue together, so the queue is always the suffix of the
     * elements from index head on; the loop keeps that index.
     */
    method Mesh(arena: Arena, source: nat)
      requires MeshReady(arena.neighbors, arena.ports) && source < |arena.neighbors|
      modifies this, arena`ports
      ensures Meshed(arena.neighbors, old(arena.ports), arena.ports, source, elements, nodes)
    {
      ghost var nbrs, ports0 := arena.neighbors, arena.ports;
      elements, nodes := [source], [];
      var head := 0;
      ghost var parent: seq<nat>, via: seq<nat> := [0], [0];
      MeshStart(nbrs, ports0, source);
      while head < |elements|
        invariant arena.neighbors == nbrs
        invariant MeshInv(nbrs, ports0, arena.ports, nodes, elements, parent, via, source, head, 0)
        decreases |nbrs| - head
      {
        MeshBounded(nbrs, ports0, arena.ports, nodes, elements, parent, via, source, head, 0);
        var top := elements[head];
        parent, via := MeshElement(arena, top, nbrs, ports0, source, parent, via, head);
        MeshNext(nbrs, ports0, arena.ports, nodes, elements, parent, via, source, head, top);
        head := head + 1;
      }
      MeshFinish(nbrs, ports0, arena.ports, nodes, elements, parent, via, source, head);
    }

    /** The inner loop of `mesh`: every port of top, the element at the head of the queue, in order. */
    method MeshElement(arena: Arena, top: nat, ghost nbrs: seq<Slots>, ghost ports0: seq<Slots>, ghost source: nat,
                       ghost parent: seq<nat>, ghost via: seq<nat>, ghost done: nat)
      returns (ghost parent': seq<nat>, ghost via': seq<nat>)
      requires arena.neighbors == nbrs && done < |elements| && elements[done] == top && top < |nbrs|
      requires MeshInv(nbrs, ports0, arena.ports, nodes, elements, parent, via, source, done, 0)
      modifies this`elements, this`nodes, arena`ports
      ensures MeshInv(nbrs, ports0, arena.ports, nodes, elements, parent', via', source, done, |nbrs[top]|)
      ensures done < |elements| && elements[done] == top
    {
      parent', via' := parent, via;
      var size := |arena.neighbors[top]|;
      for n := 0 to size
        invariant arena.neighbors == nbrs && size == |nbrs[top]|
        invariant done < |elements| && elements[done] == top
        invariant MeshInv(nbrs, ports0, arena.ports, nodes, elements, parent', via', source, done, n)
      {
        parent', via' := MeshPort(arena, top, n, nbrs, ports0, source, parent', via', done);
      }
    }

    /** One port of `mesh`: port n of the element top, which is elements[done], the head of the queue. */
    method MeshPort(arena: Arena, top: nat, n: nat, ghost nbrs: seq<Slots>, ghost ports0: seq<Slots>, ghost source: nat,
                    ghost parent: seq<nat>, ghost via: seq<nat>, ghost done: nat)
      returns (ghost parent': seq<nat>, ghost via': seq<nat>)
      requires arena.neighbors == nbrs && done < |elements| && elements[done] == top && top < |nbrs| && n < |nbrs[top]|
      requires MeshInv(nbrs, ports0, arena.ports, nodes, elements, parent, via, source, done, n)
      modifies this`elements, this`nodes, arena`ports
      ensures MeshInv(nbrs, ports0, arena.ports, nodes, elements, parent', via', source, done, n + 1)
      ensures done < |elements| && elements[done] == top
    {
      parent', via' := parent, via;
      var neighbor := arena.neighbors[top][n];
      if neighbor == None {
        MeshOpenPort(arena, top, n, nbrs, ports0, source, parent, via, done);
      } else if neighbor.value !in elements {
        MeshNewPort(arena, top, n, neighbor.value, nbrs, ports0, source, parent, via, done);
        parent', via' := parent + [done], via + [n];
      } else if arena.ports[top][n] == None {
        MeshKnownPort(arena, top, n, neighbor.value, nbrs, ports0, source, parent, via, done);
      } else {
        MeshSkip(nbrs, ports0, arena.ports, nodes, elements, parent, via, source, done, n);
      }
    }

    /** An open port: `update_boundary` gives it a new Boundary node. */
    method MeshOpenPort(arena: Arena, top: nat, n: nat, ghost nbrs: seq<Slots>, ghost ports0: seq<Slots>, ghost source: nat,
                        ghost parent: seq<nat>, ghost via: seq<nat>, ghost done: nat)
      requires arena.neighbors == nbrs && done < |elements| && elements[done] == top && top < |nbrs| && n < |nbrs[top]|
      requires MeshInv(nbrs, ports0, arena.ports, nodes, elements, parent, via, source, done, n)
      requires nbrs[top][n] == None
      modifies this`nodes, arena`ports
      ensures MeshInv(nbrs, ports0, arena.ports, nodes, elements, parent, via, source, done, n + 1)
    {
      ghost var ports, ns := arena.ports, nodes;
      UpdateBoundary(arena, top, n);
      MeshBoundary(nbrs, ports0, ports, ns, elements, parent, via, source, done, n, arena.ports, nodes);
    }

    /**
     * A port tied to an element nb not yet discovered: nb is appended to the
     * elements, and `update_connection` gives both ends a new Connection node.
     */
    method MeshNewPort(arena: Arena, top: nat, n: nat, nb: nat, ghost nbrs: seq<Slots>, ghost ports0: seq<Slots>,
                       ghost source: nat, ghost parent: seq<nat>, ghost via: seq<nat>, ghost done: nat)
      requires arena.neighbors == nbrs && done < |elements| && elements[done] == top && top < |nbrs| && n < |nbrs[top]|
      requires MeshInv(nbrs, ports0, arena.ports, nodes, elements, parent, via, source, done, n)
      requires nbrs[top][n] == Some(nb) && nb !in elements
      modifies this`nodes, this`elements, arena`ports
      ensures elements == old(elements) + [nb] && nb < |nbrs|
      ensures MeshInv(nbrs, ports0, arena.ports, nodes, elements, parent + [done], via + [n], source, done, n + 1)
    {
      ghost var ports, es, ns := arena.ports, elements, nodes;
      UpdateConnection(arena, top, nb, n);
      elements := elements + [nb];
      MeshDiscover(nbrs, ports0, ports, ns, es, parent, via, source, done, n, nb, arena.ports, nodes, elements);
    }

    /**
     * A port tied to a discovered element nb and holding no node yet:
     * `update_connection` gives both ends a new Connection node.
     */
    method MeshKnownPort(arena: Arena, top: nat, n: nat, nb: nat, ghost nbrs: seq<Slots>, ghost ports0: seq<Slots>,
                         ghost source: nat, ghost parent: seq<nat>, ghost via: seq<nat>, ghost done: nat)
      requires arena.neighbors == nbrs && done < |elements| && elements[done] == top && top < |nbrs| && n < |nbrs[top]|
      requires MeshInv(nbrs, ports0, arena.ports, nodes, elements, parent, via, source, done, n)
      requires nbrs[top][n] == Some(nb) && nb in elements && arena.ports[top][n] == None
      modifies this`nodes, arena`ports
      ensures MeshInv(nbrs, ports0, arena.ports, nodes, elements, parent, via, source, done, n + 1)
    {
      ghost var ports, ns := arena.ports, nodes;
      UpdateConnection(arena, top, nb, n);
      MeshClose(nbrs, ports0, ports, ns, elements, parent, via, source, done, n, nb, arena.ports, nodes);
    }

    /**
     * The node classification of `mesh_checks`: the indices of the Connection
     * nodes and of the Boundary nodes, each in ascending order.
     */
    method NodeLists() returns (connections: seq<nat>, boundaries: seq<nat>)
      ensures connections == KindIndices(nodes, Connection, |nodes|)
      ensures boundaries == KindIndices(nodes, Boundary, |nodes|)
      ensures |connections| + |boundaries| == |nodes|
    {
      connections, boundaries := [], [];
      for n := 0 to |nodes|
        invariant connections == KindIndices(nodes, Connection, n)
        invariant boundaries == KindIndices(nodes, Boundary, n)
      {
        if nodes[n] == Connection {
          connections := connections + [n];
        } else {
          boundaries := boundaries + [n];
        }
      }
      KindIndicesCount(nodes, Connection, |nodes|);
      KindIndicesCount(nodes, Boundary, |nodes|);
      assert nodes[..|nodes|] == nodes;
      CountKindsCover(nodes);
    }
  }
}
