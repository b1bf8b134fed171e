/**
 * The loop invariant of the breadth-first mesher and the lemmas that carry it
 * across each case of the loop body.
 *
 * The state of the mesher is: the port rows, the node list, the discovered
 * elements es (the queue is es[done..]), the ghost discovery record (parent,
 * via), and the cursor n over the ports of the element at the head of the
 * queue, es[done].
 */
module Meshing {
  import opened Wrappers
  import opened Topology

  /** Every port of the elements already processed, and ports 0..n-1 of es[done], hold a node. */
  ghost predicate Settled(ports: seq<Slots>, es: seq<nat>, done: nat, n: nat)
    requires InArena(es, |ports|) && done <= |es|
  {
    && (forall i, p :: 0 <= i < done && 0 <= p < |ports[es[i]]| ==> ports[es[i]][p].Some?)
    && (done < |es| ==> forall p :: 0 <= p < n && p < |ports[es[done]]| ==> ports[es[done]][p].Some?)
  }

  /** The ties of the processed ports all lead to discovered elements. */
  ghost predicate ClosedUpTo(nbrs: seq<Slots>, es: seq<nat>, done: nat, n: nat)
    requires InArena(es, |nbrs|) && done <= |es|
  {
    && (forall i, p :: 0 <= i < done && 0 <= p < |nbrs[es[i]]| && nbrs[es[i]][p].Some? ==> nbrs[es[i]][p].value in es)
    && (done < |es| ==> forall p :: 0 <= p < n && p < |nbrs[es[done]]| && nbrs[es[done]][p].Some? ==>
                          nbrs[es[done]][p].value in es)
  }

  /** Open ports that the loop has not reached yet have no node. */
  ghost predicate OpenPending(nbrs: seq<Slots>, ports: seq<Slots>, es: seq<nat>, done: nat, n: nat)
    requires Shaped(nbrs, ports) && InArena(es, |nbrs|) && done <= |es|
  {
    && (forall i, p :: done < i < |es| && 0 <= p < |nbrs[es[i]]| && nbrs[es[i]][p] == None ==> ports[es[i]][p] == None)
    && (done < |es| ==> forall p :: n <= p < |nbrs[es[done]]| && nbrs[es[done]][p] == None ==>
                          ports[es[done]][p] == None)
  }

  /** Every discovery so far was made from a processed port. */
  ghost predicate Frontier(parent: seq<nat>, via: seq<nat>, es: seq<nat>, done: nat, n: nat)
    requires |parent| == |es| && |via| == |es|
  {
    forall i :: 0 < i < |es| ==> parent[i] < done || (parent[i] == done && via[i] < n)
  }

  /** The parts of the arena the mesher reads but does not renumber, and the discovered elements. */
  ghost predicate MeshFrame(nbrs: seq<Slots>, ports0: seq<Slots>, ports: seq<Slots>, es: seq<nat>, source: nat) {
    && Shaped(nbrs, ports) && Shaped(nbrs, ports0) && WellTied(nbrs) && Unmeshed(ports0)
    && |es| >= 1 && es[0] == source && Distinct(es) && InArena(es, |nbrs|)
    && (forall e :: 0 <= e < |nbrs| && e !in es ==> ports[e] == ports0[e])
  }

  /** The node numbering built so far is consistent with the ties and counts its ports. */
  ghost predicate Numbered(nbrs: seq<Slots>, ports: seq<Slots>, es: seq<nat>, nodes: seq<NodeKind>)
    requires Shaped(nbrs, ports) && InArena(es, |nbrs|)
  {
    && Paired(nbrs, ports)
    && Below(ports, es, |nodes|)
    && KindsMatch(nbrs, ports, es, nodes)
    && Degrees(ports, es, nodes)
    && PortTotal(ports, es) == Held(ports, es, None) + CountKind(nodes, Boundary) + 2 * CountKind(nodes, Connection)
  }

  /** How far the loop has got: all of es[..done] and ports 0..n-1 of es[done]. */
  ghost predicate Progress(nbrs: seq<Slots>, ports: seq<Slots>, es: seq<nat>, done: nat, n: nat)
    requires Shaped(nbrs, ports) && InArena(es, |nbrs|)
  {
    && done <= |es| && (done == |es| ==> n == 0) && (done < |es| ==> n <= |nbrs[es[done]]|)
    && Settled(ports, es, done, n)
    && ClosedUpTo(nbrs, es, done, n)
    && OpenPending(nbrs, ports, es, done, n)
  }

  /** The discovery record: breadth-first order, with every discovery made from a processed port. */
  ghost predicate Discovery(nbrs: seq<Slots>, es: seq<nat>, parent: seq<nat>, via: seq<nat>, done: nat, n: nat)
    requires InArena(es, |nbrs|)
  {
    BreadthFirst(nbrs, es, parent, via) && Frontier(parent, via, es, done, n)
  }

  /** The loop invariant of the mesher. */
  ghost predicate MeshInv(nbrs: seq<Slots>, ports0: seq<Slots>, ports: seq<Slots>, nodes: seq<NodeKind>,
                          es: seq<nat>, parent: seq<nat>, via: seq<nat>, source: nat, done: nat, n: nat)
  {
    && MeshFrame(nbrs, ports0, ports, es, source)
    && Numbered(nbrs, ports, es, nodes)
    && Progress(nbrs, ports, es, done, n)
    && Discovery(nbrs, es, parent, via, done, n)
  }

  /** What meshing from source establishes. */
  ghost predicate Meshed(nbrs: seq<Slots>, ports0: seq<Slots>, ports: seq<Slots>, source: nat,
                         es: seq<nat>, nodes: seq<NodeKind>)
  {
    && Shaped(nbrs, ports) && Shaped(nbrs, ports0)
    && |es| >= 1 && es[0] == source && Distinct(es) && InArena(es, |nbrs|)
    && Closed(nbrs, es)
    && (exists parent, via :: BreadthFirst(nbrs, es, parent, via))
    && (forall e :: 0 <= e < |nbrs| && e !in es ==> ports[e] == ports0[e])
    && Complete(ports, es, nodes)
    && KindsMatch(nbrs, ports, es, nodes)
    && Paired(nbrs, ports)
    && Degrees(ports, es, nodes)
    && PortTotal(ports, es) == CountKind(nodes, Boundary) + 2 * CountKind(nodes, Connection)
  }

  lemma MeshStart(nbrs: seq<Slots>, ports: seq<Slots>, source: nat)
    requires MeshReady(nbrs, ports) && source < |nbrs|
    ensures MeshInv(nbrs, ports, ports, [], [source], [0], [0], source, 0, 0)
  {
    var es := [source];
    assert Held(ports, es, None) == Occurrences(ports[source], None) by {
      assert es[..0] == [];
    }
    assert PortTotal(ports, es) == |ports[source]| by {
      assert es[..0] == [];
    }
    OccurrencesUniform(ports[source], None);
  }

  lemma MeshFinish(nbrs: seq<Slots>, ports0: seq<Slots>, ports: seq<Slots>, nodes: seq<NodeKind>,
                   es: seq<nat>, parent: seq<nat>, via: seq<nat>, source: nat, done: nat)
    requires MeshInv(nbrs, ports0, ports, nodes, es, parent, via, source, done, 0) && done >= |es|
    ensures Meshed(nbrs, ports0, ports, source, es, nodes)
  {
    assert done == |es|;
    assert Closed(nbrs, es);
    assert Complete(ports, es, nodes);
    assert BreadthFirst(nbrs, es, parent, via);
    HeldAbsent(ports, es, None);
  }

  // ---------------------------------------------------------------------------
  // Discovery record
  // ---------------------------------------------------------------------------

  /** Moving the cursor past port n keeps every earlier discovery behind it. */
  lemma DiscoveryAdvance(nbrs: seq<Slots>, es: seq<nat>, parent: seq<nat>, via: seq<nat>, done: nat, n: nat)
    requires InArena(es, |nbrs|) && Discovery(nbrs, es, parent, via, done, n)
    ensures Discovery(nbrs, es, parent, via, done, n + 1)
  {
  }

  /** Moving from element es[done], all of whose ports are processed, to the next one. */
  lemma MeshNextElement(nbrs: seq<Slots>, ports: seq<Slots>, es: seq<nat>, parent: seq<nat>, via: seq<nat>, done: nat)
    requires Shaped(nbrs, ports) && InArena(es, |nbrs|) && done < |es|
    requires Progress(nbrs, ports, es, done, |nbrs[es[done]]|)
    requires Discovery(nbrs, es, parent, via, done, |nbrs[es[done]]|)
    ensures Progress(nbrs, ports, es, done + 1, 0)
    ensures Discovery(nbrs, es, parent, via, done + 1, 0)
  {
    var n := |nbrs[es[done]]|;
    forall i, p | 0 <= i < done + 1 && 0 <= p < |ports[es[i]]| ensures ports[es[i]][p].Some? {
      if i < done {
        assert Settled(ports, es, done, n);
      }
    }
    forall i, p | 0 <= i < done + 1 && 0 <= p < |nbrs[es[i]]| && nbrs[es[i]][p].Some?
      ensures nbrs[es[i]][p].value in es
    {
      if i < done {
        assert ClosedUpTo(nbrs, es, done, n);
      }
    }
    assert Settled(ports, es, done + 1, 0);
    assert ClosedUpTo(nbrs, es, done + 1, 0);
    assert OpenPending(nbrs, ports, es, done + 1, 0);
    assert Frontier(parent, via, es, done + 1, 0);
  }

  /** The queue never holds more elements than the arena has. */
  lemma MeshBounded(nbrs: seq<Slots>, ports0: seq<Slots>, ports: seq<Slots>, nodes: seq<NodeKind>,
                    es: seq<nat>, parent: seq<nat>, via: seq<nat>, source: nat, done: nat, n: nat)
    requires MeshInv(nbrs, ports0, ports, nodes, es, parent, via, source, done, n)
    ensures |es| <= |nbrs| && InArena(es, |nbrs|)
  {
    DistinctBounded(es, |nbrs|);
  }

  /** The loop moves on from es[done], all of whose ports are processed, to the next element. */
  lemma MeshNext(nbrs: seq<Slots>, ports0: seq<Slots>, ports: seq<Slots>, nodes: seq<NodeKind>,
                 es: seq<nat>, parent: seq<nat>, via: seq<nat>, source: nat, done: nat, top: nat)
    requires done < |es| && es[done] == top && top < |nbrs|
    requires MeshInv(nbrs, ports0, ports, nodes, es, parent, via, source, done, |nbrs[top]|)
    ensures MeshInv(nbrs, ports0, ports, nodes, es, parent, via, source, done + 1, 0)
  {
    MeshNextElement(nbrs, ports, es, parent, via, done);
  }

  /** An element tied to a processed port is discovered, so an undiscovered one is tied to none. */
  lemma NotTiedBefore(nbrs: seq<Slots>, es: seq<nat>, done: nat, n: nat, nb: nat, j: nat)
    requires InArena(es, |nbrs|) && done < |es| && ClosedUpTo(nbrs, es, done, n)
    requires nb !in es && j < done
    ensures Some(nb) !in nbrs[es[j]]
  {
    forall p | 0 <= p < |nbrs[es[j]]| ensures nbrs[es[j]][p] != Some(nb) {
      if nbrs[es[j]][p].Some? {
        assert nbrs[es[j]][p].value in es;
      }
    }
  }

  /**
   * A newly discovered element nb, reached from port n of es[done], is appended
   * with parent done and via n; no earlier processed element is tied to it.
   */
  lemma DiscoverDiscovery(nbrs: seq<Slots>, es: seq<nat>, parent: seq<nat>, via: seq<nat>,
                          done: nat, n: nat, nb: nat)
    requires InArena(es, |nbrs|) && done < |es| && n < |nbrs[es[done]]|
    requires nbrs[es[done]][n] == Some(nb) && nb < |nbrs| && nb !in es
    requires ClosedUpTo(nbrs, es, done, n) && BreadthFirst(nbrs, es, parent, via) && Frontier(parent, via, es, done, n)
    ensures InArena(es + [nb], |nbrs|)
    ensures Discovery(nbrs, es + [nb], parent + [done], via + [n], done, n + 1)
  {
    var es', parent', via' := es + [nb], parent + [done], via + [n];
    assert InArena(es', |nbrs|);
    DiscoverEdges(nbrs, es, parent, via, done, n, nb, es', parent', via');
    DiscoverUntied(nbrs, es, parent, via, done, n, nb, es', parent', via');
    DiscoverOrdered(es, parent, via, done, n, nb, es', parent', via');
    FrontierAppend(parent, via, es, done, n, nb);
  }

  /** Each discovered element, the new one included, is tied to the port it was found through. */
  lemma DiscoverEdges(nbrs: seq<Slots>, es: seq<nat>, parent: seq<nat>, via: seq<nat>,
                      done: nat, n: nat, nb: nat, es': seq<nat>, parent': seq<nat>, via': seq<nat>)
    requires InArena(es, |nbrs|) && done < |es| && n < |nbrs[es[done]]| && nbrs[es[done]][n] == Some(nb)
    requires BreadthFirst(nbrs, es, parent, via)
    requires es' == es + [nb] && parent' == parent + [done] && via' == via + [n] && InArena(es', |nbrs|)
    ensures forall i {:trigger parent'[i]} :: 0 < i < |es'| ==>
              parent'[i] < i && via'[i] < |nbrs[es'[parent'[i]]]| && nbrs[es'[parent'[i]]][via'[i]] == Some(es'[i])
  {
    forall i | 0 < i < |es'|
      ensures parent'[i] < i && via'[i] < |nbrs[es'[parent'[i]]]| && nbrs[es'[parent'[i]]][via'[i]] == Some(es'[i])
    {
      if i < |es| {
        assert parent'[i] == parent[i] && via'[i] == via[i] && es'[i] == es[i];
        assert es'[parent[i]] == es[parent[i]];
      } else {
        assert es'[done] == es[done];
      }
    }
  }

  /** No element processed before a discovery's parent is tied to the discovered element. */
  lemma DiscoverUntied(nbrs: seq<Slots>, es: seq<nat>, parent: seq<nat>, via: seq<nat>,
                       done: nat, n: nat, nb: nat, es': seq<nat>, parent': seq<nat>, via': seq<nat>)
    requires InArena(es, |nbrs|) && done < |es| && n < |nbrs[es[done]]| && nb !in es
    requires ClosedUpTo(nbrs, es, done, n) && BreadthFirst(nbrs, es, parent, via)
    requires es' == es + [nb] && parent' == parent + [done] && via' == via + [n] && InArena(es', |nbrs|)
    ensures forall i, j :: 0 < i < |es'| && 0 <= j < parent'[i] ==> Some(es'[i]) !in nbrs[es'[j]]
  {
    forall i, j | 0 < i < |es'| && 0 <= j < parent'[i] ensures Some(es'[i]) !in nbrs[es'[j]] {
      if i < |es| {
        assert parent'[i] == parent[i];
        assert es'[j] == es[j] && es'[i] == es[i];
      } else {
        NotTiedBefore(nbrs, es, done, n, nb, j);
        assert es'[j] == es[j];
      }
    }
  }

  /** Discoveries stay ordered by parent, then by port. */
  lemma DiscoverOrdered(es: seq<nat>, parent: seq<nat>, via: seq<nat>,
                        done: nat, n: nat, nb: nat, es': seq<nat>, parent': seq<nat>, via': seq<nat>)
    requires |parent| == |es| && |via| == |es| && Frontier(parent, via, es, done, n)
    requires (forall i, i' :: 0 < i < i' < |es| ==>
                parent[i] < parent[i'] || (parent[i] == parent[i'] && via[i] < via[i']))
    requires es' == es + [nb] && parent' == parent + [done] && via' == via + [n]
    ensures forall i, i' :: 0 < i < i' < |es'| ==>
              parent'[i] < parent'[i'] || (parent'[i] == parent'[i'] && via'[i] < via'[i'])
  {
    forall i, i' | 0 < i < i' < |es'|
      ensures parent'[i] < parent'[i'] || (parent'[i] == parent'[i'] && via'[i] < via'[i'])
    {
      assert parent'[i] == parent[i] && via'[i] == via[i];
      if i' < |es| {
        assert parent'[i'] == parent[i'] && via'[i'] == via[i'];
      }
    }
  }

  /** The discovery made from port n of es[done] is behind the cursor once it moves past n. */
  lemma FrontierAppend(parent: seq<nat>, via: seq<nat>, es: seq<nat>, done: nat, n: nat, nb: nat)
    requires |parent| == |es| && |via| == |es| && Frontier(parent, via, es, done, n)
    ensures Frontier(parent + [done], via + [n], es + [nb], done, n + 1)
  {
    var es', parent', via' := es + [nb], parent + [done], via + [n];
    forall i | 0 < i < |es'| ensures parent'[i] < done || (parent'[i] == done && via'[i] < n + 1) {
      if i < |es| {
        assert parent'[i] == parent[i] && via'[i] == via[i];
      }
    }
  }

  // ---------------------------------------------------------------------------
  // Progress of the cursor
  // ---------------------------------------------------------------------------

  /**
   * ports' grows ports: no node is taken away, and no open slot other than
   * (e, p) is written.
   */
  ghost predicate Grows(nbrs: seq<Slots>, ports: seq<Slots>, ports': seq<Slots>, e: nat, p: nat)
    requires Shaped(nbrs, ports) && Shaped(nbrs, ports')
  {
    && (forall f, q :: 0 <= f < |nbrs| && 0 <= q < |nbrs[f]| && ports[f][q].Some? ==> ports'[f][q].Some?)
    && (forall f, q :: 0 <= f < |nbrs| && 0 <= q < |nbrs[f]| && nbrs[f][q] == None && (f, q) != (e, p) ==>
          ports'[f][q] == ports[f][q])
  }

  /** Writing a node into slot (e, p) and into a tied slot (f, q) grows the ports. */
  lemma GrowsByWrites(nbrs: seq<Slots>, ports: seq<Slots>, e: nat, p: nat, f: nat, q: nat, k: nat)
    requires Shaped(nbrs, ports) && e < |nbrs| && p < |nbrs[e]| && f < |nbrs| && q < |nbrs[f]|
    requires nbrs[f][q].Some?
    ensures Shaped(nbrs, SetSlot(SetSlot(ports, e, p, Some(k)), f, q, Some(k)))
    ensures Grows(nbrs, ports, SetSlot(SetSlot(ports, e, p, Some(k)), f, q, Some(k)), e, p)
  {
  }

  /**
   * Once port n of es[done] holds a node (and, if tied, leads to a discovered
   * element), the cursor may move past it.
   */
  lemma ProgressStep(nbrs: seq<Slots>, ports: seq<Slots>, ports': seq<Slots>, es: seq<nat>, done: nat, n: nat)
    requires Shaped(nbrs, ports) && Shaped(nbrs, ports') && InArena(es, |nbrs|) && Distinct(es)
    requires Progress(nbrs, ports, es, done, n)
    requires done < |es| && n < |nbrs[es[done]]|
    requires Grows(nbrs, ports, ports', es[done], n)
    requires ports'[es[done]][n].Some?
    requires nbrs[es[done]][n].Some? ==> nbrs[es[done]][n].value in es
    ensures Progress(nbrs, ports', es, done, n + 1)
  {
    var top := es[done];
    forall i, p | 0 <= i < done && 0 <= p < |ports'[es[i]]| ensures ports'[es[i]][p].Some? {
      assert ports[es[i]][p].Some?;
    }
    forall p | 0 <= p < n + 1 && p < |ports'[top]| ensures ports'[top][p].Some? {
      if p < n {
        assert ports[top][p].Some?;
      }
    }
    forall i, p | done < i < |es| && 0 <= p < |nbrs[es[i]]| && nbrs[es[i]][p] == None
      ensures ports'[es[i]][p] == None
    {
      assert es[i] != top;
    }
    assert Settled(ports', es, done, n + 1);
    assert ClosedUpTo(nbrs, es, done, n + 1);
    assert OpenPending(nbrs, ports', es, done, n + 1);
  }

  /** Appending an element whose ports are all empty keeps the progress facts. */
  lemma ExtendProgress(nbrs: seq<Slots>, ports: seq<Slots>, es: seq<nat>, done: nat, n: nat, nb: nat)
    requires Shaped(nbrs, ports) && InArena(es, |nbrs|) && done < |es|
    requires nb < |nbrs| && forall p :: 0 <= p < |ports[nb]| ==> ports[nb][p] == None
    requires Progress(nbrs, ports, es, done, n)
    ensures InArena(es + [nb], |nbrs|)
    ensures Progress(nbrs, ports, es + [nb], done, n)
  {
    var es' := es + [nb];
    assert InArena(es', |nbrs|);
    assert es'[done] == es[done];
    forall i, p | 0 <= i < done && 0 <= p < |nbrs[es'[i]]| && nbrs[es'[i]][p].Some?
      ensures nbrs[es'[i]][p].value in es'
    {
      assert es'[i] == es[i];
      assert nbrs[es[i]][p].value in es;
    }
    forall p | 0 <= p < n && p < |nbrs[es'[done]]| && nbrs[es'[done]][p].Some?
      ensures nbrs[es'[done]][p].value in es'
    {
      assert nbrs[es[done]][p].value in es;
    }
    forall i, p | done < i < |es'| && 0 <= p < |nbrs[es'[i]]| && nbrs[es'[i]][p] == None
      ensures ports[es'[i]][p] == None
    {
      if i < |es| {
        assert es'[i] == es[i];
      }
    }
    assert Settled(ports, es', done, n);
    assert ClosedUpTo(nbrs, es', done, n);
    assert OpenPending(nbrs, ports, es', done, n);
  }

  // ---------------------------------------------------------------------------
  // The node numbering
  // ---------------------------------------------------------------------------

  /** Appending an element whose ports are all empty keeps the numbering facts. */
  lemma ExtendNumbered(nbrs: seq<Slots>, ports: seq<Slots>, es: seq<nat>, nodes: seq<NodeKind>, nb: nat)
    requires Shaped(nbrs, ports) && InArena(es, |nbrs|)
    requires nb < |nbrs| && forall p :: 0 <= p < |ports[nb]| ==> ports[nb][p] == None
    requires Numbered(nbrs, ports, es, nodes)
    ensures InArena(es + [nb], |nbrs|)
    ensures Numbered(nbrs, ports, es + [nb], nodes)
  {
    var es' := es + [nb];
    assert InArena(es', |nbrs|);
    OccurrencesUniform(ports[nb], None);
    forall x: Option<nat> | x != None ensures Occurrences(ports[nb], x) == 0 {
      OccurrencesUniform(ports[nb], x);
    }
    forall x: Option<nat> ensures Held(ports, es', x) == Held(ports, es, x) + Occurrences(ports[nb], x) {
      HeldAppend(ports, es, nb, x);
    }
    HeldAppend(ports, es, nb, None);
    forall i, p | 0 <= i < |es'| && 0 <= p < |ports[es'[i]]| && ports[es'[i]][p].Some?
      ensures ports[es'[i]][p].value < |nodes|
      ensures nodes[ports[es'[i]][p].value] == if nbrs[es'[i]][p] == None then Boundary else Connection
    {
      assert i < |es| && es'[i] == es[i];
    }
    assert Below(ports, es', |nodes|);
    assert KindsMatch(nbrs, ports, es', nodes);
    assert Degrees(ports, es', nodes);
  }

  /** Writing node k into untied slot p of element e keeps every tie's two ends equal. */
  lemma PairedAfterOpenWrite(nbrs: seq<Slots>, ports: seq<Slots>, e: nat, p: nat, k: nat)
    requires Shaped(nbrs, ports) && Paired(nbrs, ports)
    requires e < |nbrs| && p < |nbrs[e]| && nbrs[e][p] == None
    ensures Paired(nbrs, SetSlot(ports, e, p, Some(k)))
  {
    var ports' := SetSlot(ports, e, p, Some(k));
    forall f, q, g, r | 0 <= f < |nbrs| && 0 <= q < |nbrs[f]| && 0 <= g < |nbrs| && 0 <= r < |nbrs[g]| &&
                        nbrs[f][q] == Some(g) && nbrs[g][r] == Some(f)
      ensures ports'[f][q] == ports'[g][r]
    {
      assert (f, q) != (e, p) && (g, r) != (e, p);
    }
  }

  /**
   * Writing node k into both ends (e, p) and (f, q) of one tie keeps every
   * tie's two ends equal.
   */
  lemma PairedAfterTieWrite(nbrs: seq<Slots>, ports: seq<Slots>, e: nat, p: nat, f: nat, q: nat, k: nat)
    requires Shaped(nbrs, ports) && Paired(nbrs, ports) && WellTied(nbrs)
    requires e < |nbrs| && p < |nbrs[e]| && f < |nbrs| && q < |nbrs[f]|
    requires nbrs[e][p] == Some(f) && nbrs[f][q] == Some(e)
    ensures Paired(nbrs, SetSlot(SetSlot(ports, e, p, Some(k)), f, q, Some(k)))
  {
    var ports1 := SetSlot(ports, e, p, Some(k));
    var ports' := SetSlot(ports1, f, q, Some(k));
    assert e != f;
    forall g, r, h, s | 0 <= g < |nbrs| && 0 <= r < |nbrs[g]| && 0 <= h < |nbrs| && 0 <= s < |nbrs[h]| &&
                        nbrs[g][r] == Some(h) && nbrs[h][s] == Some(g)
      ensures ports'[g][r] == ports'[h][s]
    {
      SameTie(nbrs, e, p, f, q, g, r, h, s);
      if (g, r) != (e, p) && (g, r) != (f, q) && (h, s) != (e, p) && (h, s) != (f, q) {
        SetSlotElsewhere(ports, e, p, Some(k), g, r);
        SetSlotElsewhere(ports1, f, q, Some(k), g, r);
        SetSlotElsewhere(ports, e, p, Some(k), h, s);
        SetSlotElsewhere(ports1, f, q, Some(k), h, s);
      }
    }
  }

  /** A tie (g, r)-(h, s) that has one end in common with the tie (e, p)-(f, q) is that tie. */
  lemma SameTie(nbrs: seq<Slots>, e: nat, p: nat, f: nat, q: nat, g: nat, r: nat, h: nat, s: nat)
    requires SingleTies(nbrs) && e < |nbrs| && p < |nbrs[e]| && f < |nbrs| && q < |nbrs[f]|
    requires g < |nbrs| && r < |nbrs[g]| && h < |nbrs| && s < |nbrs[h]|
    requires nbrs[e][p] == Some(f) && nbrs[f][q] == Some(e) && nbrs[g][r] == Some(h) && nbrs[h][s] == Some(g)
    ensures (g, r) == (e, p) ==> (h, s) == (f, q)
    ensures (g, r) == (f, q) ==> (h, s) == (e, p)
    ensures (h, s) == (e, p) ==> (g, r) == (f, q)
    ensures (h, s) == (f, q) ==> (g, r) == (e, p)
  {
    if (g, r) == (e, p) {
      SingleTieAt(nbrs, f, q, s);
    }
    if (g, r) == (f, q) {
      SingleTieAt(nbrs, e, p, s);
    }
    if (h, s) == (e, p) {
      SingleTieAt(nbrs, f, q, r);
    }
    if (h, s) == (f, q) {
      SingleTieAt(nbrs, e, p, r);
    }
  }

  /** Giving untied port n of es[i] the fresh Boundary node |nodes| keeps the numbering facts. */
  lemma BoundaryNumbered(nbrs: seq<Slots>, ports: seq<Slots>, es: seq<nat>, nodes: seq<NodeKind>, i: nat, n: nat)
    requires Shaped(nbrs, ports) && InArena(es, |nbrs|) && Distinct(es)
    requires Numbered(nbrs, ports, es, nodes)
    requires i < |es| && n < |nbrs[es[i]]| && nbrs[es[i]][n] == None && ports[es[i]][n] == None
    ensures Numbered(nbrs, SetSlot(ports, es[i], n, Some(|nodes|)), es, nodes + [Boundary])
  {
    var top, k := es[i], |nodes|;
    var ports' := SetSlot(ports, top, n, Some(k));
    var nodes' := nodes + [Boundary];
    assert top in es;
    forall x: Option<nat> ensures Held(ports', es, x) ==
      Held(ports, es, x) + (if x == Some(k) then 1 else 0) - (if x == None then 1 else 0)
    {
      HeldAfterSet(ports, es, top, n, k, x);
    }
    PortTotalFrame(ports, ports', es);
    HeldBelow(ports, es, k);
    CountKindAppend(nodes, Boundary, Boundary);
    CountKindAppend(nodes, Boundary, Connection);
    forall j | 0 <= j < |nodes'| ensures Held(ports', es, Some(j)) == Weight(nodes'[j]) {
      if j < k {
        assert nodes'[j] == nodes[j];
      }
    }
    PairedAfterOpenWrite(nbrs, ports, top, n, k);
    forall j, p | 0 <= j < |es| && 0 <= p < |ports'[es[j]]| && ports'[es[j]][p].Some?
      ensures ports'[es[j]][p].value < |nodes'|
      ensures nodes'[ports'[es[j]][p].value] == if nbrs[es[j]][p] == None then Boundary else Connection
    {
      if es[j] != top || p != n {
        assert ports'[es[j]][p] == ports[es[j]][p];
      }
    }
    assert Below(ports', es, |nodes'|);
    assert KindsMatch(nbrs, ports', es, nodes');
    assert Degrees(ports', es, nodes');
  }

  /** The counting half of ConnectionNumbered: degrees and the port tally. */
  lemma ConnectionCounts(nbrs: seq<Slots>, ports: seq<Slots>, es: seq<nat>, nodes: seq<NodeKind>,
                         i: nat, n: nat, j: nat, q: nat)
    requires Shaped(nbrs, ports) && InArena(es, |nbrs|) && Distinct(es)
    requires Below(ports, es, |nodes|) && Degrees(ports, es, nodes)
    requires PortTotal(ports, es) == Held(ports, es, None) + CountKind(nodes, Boundary) + 2 * CountKind(nodes, Connection)
    requires i < |es| && n < |nbrs[es[i]]| && j < |es| && q < |nbrs[es[j]]| && i != j
    requires ports[es[i]][n] == None && ports[es[j]][q] == None
    ensures Degrees(SetSlot(SetSlot(ports, es[i], n, Some(|nodes|)), es[j], q, Some(|nodes|)), es, nodes + [Connection])
    ensures var ports' := SetSlot(SetSlot(ports, es[i], n, Some(|nodes|)), es[j], q, Some(|nodes|));
            var nodes' := nodes + [Connection];
            PortTotal(ports', es) == Held(ports', es, None) + CountKind(nodes', Boundary) + 2 * CountKind(nodes', Connection)
  {
    var top, nb, k := es[i], es[j], |nodes|;
    var ports1 := SetSlot(ports, top, n, Some(k));
    var ports': seq<Slots> := SetSlot(ports1, nb, q, Some(k));
    var nodes' := nodes + [Connection];
    assert top in es && nb in es && top != nb;
    forall x: Option<nat> ensures Held(ports', es, x) ==
      Held(ports, es, x) + (if x == Some(k) then 2 else 0) - (if x == None then 2 else 0)
    {
      HeldAfterSet(ports, es, top, n, k, x);
      HeldAfterSet(ports1, es, nb, q, k, x);
    }
    PortTotalFrame(ports, ports', es);
    HeldBelow(ports, es, k);
    CountKindAppend(nodes, Connection, Boundary);
    CountKindAppend(nodes, Connection, Connection);
    forall m | 0 <= m < |nodes'| ensures Held(ports', es, Some(m)) == Weight(nodes'[m]) {
      if m < k {
        assert nodes'[m] == nodes[m];
      }
    }
  }

  /**
   * Giving both ends, port n of es[i] and port q of es[j], of one tie the fresh
   * Connection node |nodes| keeps the numbering facts.
   */
  lemma ConnectionNumbered(nbrs: seq<Slots>, ports: seq<Slots>, es: seq<nat>, nodes: seq<NodeKind>,
                           i: nat, n: nat, j: nat, q: nat)
    requires Shaped(nbrs, ports) && InArena(es, |nbrs|) && Distinct(es) && WellTied(nbrs)
    requires Numbered(nbrs, ports, es, nodes)
    requires i < |es| && n < |nbrs[es[i]]| && j < |es| && q < |nbrs[es[j]]|
    requires nbrs[es[i]][n] == Some(es[j]) && nbrs[es[j]][q] == Some(es[i]) && ports[es[i]][n] == None
    ensures Numbered(nbrs, SetSlot(SetSlot(ports, es[i], n, Some(|nodes|)), es[j], q, Some(|nodes|)),
                     es, nodes + [Connection])
  {
    var top, nb, k := es[i], es[j], |nodes|;
    var ports1 := SetSlot(ports, top, n, Some(k));
    var ports': seq<Slots> := SetSlot(ports1, nb, q, Some(k));
    var nodes' := nodes + [Connection];
    assert top != nb;
    assert ports[nb][q] == None by {
      assert Paired(nbrs, ports);
    }
    ConnectionCounts(nbrs, ports, es, nodes, i, n, j, q);
    PairedAfterTieWrite(nbrs, ports, top, n, nb, q, k);
    ConnectionKinds(nbrs, ports, es, nodes, top, n, nb, q);
  }

  /** The kinds half of ConnectionNumbered: node indices stay below |nodes'| and match the ties. */
  lemma ConnectionKinds(nbrs: seq<Slots>, ports: seq<Slots>, es: seq<nat>, nodes: seq<NodeKind>,
                        e: nat, n: nat, f: nat, q: nat)
    requires Shaped(nbrs, ports) && InArena(es, |nbrs|)
    requires Below(ports, es, |nodes|) && KindsMatch(nbrs, ports, es, nodes)
    requires e < |nbrs| && n < |nbrs[e]| && f < |nbrs| && q < |nbrs[f]| && nbrs[e][n].Some? && nbrs[f][q].Some?
    ensures Below(SetSlot(SetSlot(ports, e, n, Some(|nodes|)), f, q, Some(|nodes|)), es, |nodes| + 1)
    ensures KindsMatch(nbrs, SetSlot(SetSlot(ports, e, n, Some(|nodes|)), f, q, Some(|nodes|)), es, nodes + [Connection])
  {
    var ports1 := SetSlot(ports, e, n, Some(|nodes|));
    var ports': seq<Slots> := SetSlot(ports1, f, q, Some(|nodes|));
    var nodes' := nodes + [Connection];
    forall l, p | 0 <= l < |es| && 0 <= p < |ports'[es[l]]| && ports'[es[l]][p].Some?
      ensures ports'[es[l]][p].value < |nodes'|
      ensures nodes'[ports'[es[l]][p].value] == if nbrs[es[l]][p] == None then Boundary else Connection
    {
      if (es[l] != e || p != n) && (es[l] != f || p != q) {
        assert ports'[es[l]][p] == ports[es[l]][p];
      }
    }
  }

  // ---------------------------------------------------------------------------
  // The frame
  // ---------------------------------------------------------------------------

  /** A write into the row of a discovered element es[i] keeps the frame. */
  lemma FrameAfterWrite(nbrs: seq<Slots>, ports0: seq<Slots>, ports: seq<Slots>, es: seq<nat>, source: nat,
                        i: nat, p: nat, k: nat)
    requires MeshFrame(nbrs, ports0, ports, es, source)
    requires i < |es| && p < |nbrs[es[i]]|
    ensures MeshFrame(nbrs, ports0, SetSlot(ports, es[i], p, Some(k)), es, source)
  {
    var ports' := SetSlot(ports, es[i], p, Some(k));
    forall e | 0 <= e < |nbrs| && e !in es ensures ports'[e] == ports0[e] {
      assert e != es[i];
    }
  }

  /** Appending an undiscovered element whose ports are untouched keeps the frame. */
  lemma ExtendFrame(nbrs: seq<Slots>, ports0: seq<Slots>, ports: seq<Slots>, es: seq<nat>, source: nat, nb: nat)
    requires MeshFrame(nbrs, ports0, ports, es, source)
    requires nb < |nbrs| && nb !in es
    ensures MeshFrame(nbrs, ports0, ports, es + [nb], source)
  {
    var es' := es + [nb];
    forall i, j | 0 <= i < j < |es'| ensures es'[i] != es'[j] {
      if j < |es| {
        assert es'[i] == es[i] && es'[j] == es[j];
      } else {
        assert es'[i] == es[i] && es[i] in es;
      }
    }
    assert InArena(es', |nbrs|);
  }

  // ---------------------------------------------------------------------------
  // The four cases of the loop body
  // ---------------------------------------------------------------------------

  /** Port n of es[done] was already given its node from the other end of its tie. */
  lemma MeshSkip(nbrs: seq<Slots>, ports0: seq<Slots>, ports: seq<Slots>, nodes: seq<NodeKind>,
                 es: seq<nat>, parent: seq<nat>, via: seq<nat>, source: nat, done: nat, n: nat)
    requires MeshInv(nbrs, ports0, ports, nodes, es, parent, via, source, done, n)
    requires done < |es| && n < |nbrs[es[done]]|
    requires nbrs[es[done]][n].Some? && nbrs[es[done]][n].value in es && ports[es[done]][n].Some?
    ensures MeshInv(nbrs, ports0, ports, nodes, es, parent, via, source, done, n + 1)
  {
    ProgressStep(nbrs, ports, ports, es, done, n);
    DiscoveryAdvance(nbrs, es, parent, via, done, n);
  }

  /**
   * The port rows after `update_connection` has marked, with node k, every
   * port of element nb tied to element top.
   */
  function MarkBack(ports: seq<Slots>, nbrs: seq<Slots>, nb: nat, top: nat, k: nat): (r: seq<Slots>)
    requires nb < |ports| && nb < |nbrs| && |ports[nb]| == |nbrs[nb]|
    ensures |r| == |ports| && forall f :: 0 <= f < |ports| ==> |r[f]| == |ports[f]|
  {
    ports[nb := seq(|ports[nb]|, m requires 0 <= m < |ports[nb]| =>
                      if nbrs[nb][m] == Some(top) then Some(k) else ports[nb][m])]
  }

  /** Under single ties, `update_connection`'s back-marking writes exactly one slot: nb's port tied to top. */
  lemma MarkBackSingle(ports: seq<Slots>, nbrs: seq<Slots>, nb: nat, top: nat, k: nat)
    requires nb < |ports| && nb < |nbrs| && |ports[nb]| == |nbrs[nb]| && SingleTies(nbrs)
    requires IndexOf(nbrs[nb], Some(top)) < |nbrs[nb]|
    ensures MarkBack(ports, nbrs, nb, top, k) == SetSlot(ports, nb, IndexOf(nbrs[nb], Some(top)), Some(k))
  {
    var q := IndexOf(nbrs[nb], Some(top));
    var r, s := MarkBack(ports, nbrs, nb, top, k), SetSlot(ports, nb, q, Some(k));
    forall m | 0 <= m < |ports[nb]| ensures r[nb][m] == s[nb][m] {
      if nbrs[nb][m] == Some(top) {
        SingleTieAt(nbrs, nb, q, m);
      }
    }
    assert r[nb] == s[nb];
  }

  /** Port n of es[done] is open: a Boundary node is appended and assigned to it. */
  lemma MeshBoundary(nbrs: seq<Slots>, ports0: seq<Slots>, ports: seq<Slots>, nodes: seq<NodeKind>,
                     es: seq<nat>, parent: seq<nat>, via: seq<nat>, source: nat, done: nat, n: nat,
                     ports': seq<Slots>, nodes': seq<NodeKind>)
    requires MeshInv(nbrs, ports0, ports, nodes, es, parent, via, source, done, n)
    requires done < |es| && n < |nbrs[es[done]]| && nbrs[es[done]][n] == None
    requires es[done] < |ports| && n < |ports[es[done]]|
    requires ports' == SetSlot(ports, es[done], n, Some(|nodes|)) && nodes' == nodes + [Boundary]
    ensures MeshInv(nbrs, ports0, ports', nodes', es, parent, via, source, done, n + 1)
  {
    var top := es[done];
    assert ports[top][n] == None by {
      assert OpenPending(nbrs, ports, es, done, n);
    }
    BoundaryNumbered(nbrs, ports, es, nodes, done, n);
    assert Grows(nbrs, ports, ports', top, n);
    ProgressStep(nbrs, ports, ports', es, done, n);
    DiscoveryAdvance(nbrs, es, parent, via, done, n);
    FrameAfterWrite(nbrs, ports0, ports, es, source, done, n, |nodes|);
  }

  /**
   * Port n of es[done] is tied to an element es[j] that is already discovered,
   * and still has no node: a Connection node is appended and assigned to both
   * ends of the tie.
   */
  lemma CloseAt(nbrs: seq<Slots>, ports0: seq<Slots>, ports: seq<Slots>, nodes: seq<NodeKind>,
                  es: seq<nat>, parent: seq<nat>, via: seq<nat>, source: nat, done: nat, n: nat, j: nat, q: nat)
    requires MeshInv(nbrs, ports0, ports, nodes, es, parent, via, source, done, n)
    requires done < |es| && n < |nbrs[es[done]]| && j < |es| && q < |nbrs[es[j]]|
    requires nbrs[es[done]][n] == Some(es[j]) && nbrs[es[j]][q] == Some(es[done]) && ports[es[done]][n] == None
    ensures MeshInv(nbrs, ports0, SetSlot(SetSlot(ports, es[done], n, Some(|nodes|)), es[j], q, Some(|nodes|)),
                    nodes + [Connection], es, parent, via, source, done, n + 1)
  {
    var top, nb := es[done], es[j];
    var ports' := SetSlot(SetSlot(ports, top, n, Some(|nodes|)), nb, q, Some(|nodes|));
    ConnectionNumbered(nbrs, ports, es, nodes, done, n, j, q);
    assert top != nb;
    GrowsByWrites(nbrs, ports, top, n, nb, q, |nodes|);
    assert nb in es;
    ProgressStep(nbrs, ports, ports', es, done, n);
    DiscoveryAdvance(nbrs, es, parent, via, done, n);
    FrameAfterWrite(nbrs, ports0, ports, es, source, done, n, |nodes|);
    FrameAfterWrite(nbrs, ports0, SetSlot(ports, top, n, Some(|nodes|)), es, source, j, q, |nodes|);
  }

  /**
   * Port n of es[done] is tied to an element nb not yet discovered: nb is
   * appended to es (and so to the queue), and a Connection node is appended and
   * assigned to both ends of the tie, q being nb's port tied back.
   */
  lemma DiscoverAt(nbrs: seq<Slots>, ports0: seq<Slots>, ports: seq<Slots>, nodes: seq<NodeKind>,
                     es: seq<nat>, parent: seq<nat>, via: seq<nat>, source: nat, done: nat, n: nat, nb: nat, q: nat)
    requires MeshInv(nbrs, ports0, ports, nodes, es, parent, via, source, done, n)
    requires done < |es| && n < |nbrs[es[done]]| && nb < |nbrs| && q < |nbrs[nb]|
    requires nbrs[es[done]][n] == Some(nb) && nbrs[nb][q] == Some(es[done]) && nb !in es
    ensures MeshInv(nbrs, ports0, SetSlot(SetSlot(ports, es[done], n, Some(|nodes|)), nb, q, Some(|nodes|)),
                    nodes + [Connection], es + [nb], parent + [done], via + [n], source, done, n + 1)
  {
    var top, es' := es[done], es + [nb];
    var ports' := SetSlot(SetSlot(ports, top, n, Some(|nodes|)), nb, q, Some(|nodes|));
    assert ports[nb] == ports0[nb];
    assert forall p :: 0 <= p < |ports[nb]| ==> ports[nb][p] == None;
    assert ports[top][n] == None by {
      assert ports[top][n] == ports[nb][q];
    }
    ExtendNumbered(nbrs, ports, es, nodes, nb);
    ExtendProgress(nbrs, ports, es, done, n, nb);
    assert ClosedUpTo(nbrs, es, done, n);
    DiscoverDiscovery(nbrs, es, parent, via, done, n, nb);
    ExtendFrame(nbrs, ports0, ports, es, source, nb);
    assert es'[done] == top && es'[|es|] == nb;
    ConnectionNumbered(nbrs, ports, es', nodes, done, n, |es|, q);
    GrowsByWrites(nbrs, ports, top, n, nb, q, |nodes|);
    assert nb in es';
    ProgressStep(nbrs, ports, ports', es', done, n);
    FrameAfterWrite(nbrs, ports0, ports, es', source, done, n, |nodes|);
    FrameAfterWrite(nbrs, ports0, SetSlot(ports, top, n, Some(|nodes|)), es', source, |es|, q, |nodes|);
  }

  /**
   * Port n of es[done] is tied to an element nb already discovered, and holds
   * no node yet: `update_connection` assigns a new Connection node to both ends.
   */
  lemma MeshClose(nbrs: seq<Slots>, ports0: seq<Slots>, ports: seq<Slots>, nodes: seq<NodeKind>,
                  es: seq<nat>, parent: seq<nat>, via: seq<nat>, source: nat, done: nat, n: nat, nb: nat,
                  ports': seq<Slots>, nodes': seq<NodeKind>)
    requires MeshInv(nbrs, ports0, ports, nodes, es, parent, via, source, done, n)
    requires done < |es| && n < |nbrs[es[done]]| && nbrs[es[done]][n] == Some(nb) && nb in es
    requires ports[es[done]][n] == None
    requires es[done] < |ports| && nb < |nbrs| && nb < |ports| && |ports[nb]| == |nbrs[nb]|
    requires ports' == MarkBack(SetSlot(ports, es[done], n, Some(|nodes|)), nbrs, nb, es[done], |nodes|)
    requires nodes' == nodes + [Connection]
    ensures MeshInv(nbrs, ports0, ports', nodes', es, parent, via, source, done, n + 1)
  {
    var top := es[done];
    assert WellTied(nbrs) && Shaped(nbrs, ports) && top < |nbrs|;
    var q := IndexOf(nbrs[nb], Some(top));
    var j :| 0 <= j < |es| && es[j] == nb;
    MarkBackSingle(SetSlot(ports, top, n, Some(|nodes|)), nbrs, nb, top, |nodes|);
    CloseAt(nbrs, ports0, ports, nodes, es, parent, via, source, done, n, j, q);
  }

  /**
   * Port n of es[done] is tied to an element nb not yet discovered: nb joins
   * the elements (and so the queue), and `update_connection` assigns a new
   * Connection node to both ends.
   */
  lemma MeshDiscover(nbrs: seq<Slots>, ports0: seq<Slots>, ports: seq<Slots>, nodes: seq<NodeKind>,
                     es: seq<nat>, parent: seq<nat>, via: seq<nat>, source: nat, done: nat, n: nat, nb: nat,
                     ports': seq<Slots>, nodes': seq<NodeKind>, es': seq<nat>)
    requires MeshInv(nbrs, ports0, ports, nodes, es, parent, via, source, done, n)
    requires done < |es| && n < |nbrs[es[done]]| && nbrs[es[done]][n] == Some(nb) && nb !in es
    requires es[done] < |ports| && nb < |nbrs| && nb < |ports| && |ports[nb]| == |nbrs[nb]|
    requires ports' == MarkBack(SetSlot(ports, es[done], n, Some(|nodes|)), nbrs, nb, es[done], |nodes|)
    requires nodes' == nodes + [Connection] && es' == es + [nb]
    ensures MeshInv(nbrs, ports0, ports', nodes', es', parent + [done], via + [n], source, done, n + 1)
  {
    var top := es[done];
    assert WellTied(nbrs) && Shaped(nbrs, ports) && top < |nbrs|;
    var q := IndexOf(nbrs[nb], Some(top));
    MarkBackSingle(SetSlot(ports, top, n, Some(|nodes|)), nbrs, nb, top, |nodes|);
    DiscoverAt(nbrs, ports0, ports, nodes, es, parent, via, source, done, n, nb, q);
  }
}
