/** What one call of `updateGraph` guarantees, stated on `Store.Reconcile`:
    which node and link objects survive, where new nodes are placed, when the
    update throws, and the indices d3 hands out afterwards. */
module ReconcileProps {
  import opened Basics
  import opened Text
  import opened Geometry
  import opened Store
  import opened StoreProps
  import opened LinkPasses

  /** The keys `nodeDict` holds once every snapshot node has been added: the
      previous keys and the MACs of the snapshot. */
  function KnownKeys(t: map<string, Ref>, nodes: seq<NodeSnap>): set<string>
  {
    t.Keys + Macs(nodes)
  }

  /** Both ends of the link are among the given keys. */
  predicate EndsKnown(keys: set<string>, link: LinkSnap)
  {
    link.source in keys && link.target in keys
  }

  /** The keys of `nodeDict` after the node pass. */
  lemma NodePhaseKeys(st: Store, nodes: seq<NodeSnap>, isUpdate: bool, lastClick: Point, keying: NodeKeying)
    requires StoreValid(st)
    ensures NodePhase(st, nodes, isUpdate, lastClick, keying).table.Keys == KnownKeys(InitialNodeTable(st, isUpdate, keying), nodes)
  {
    var t := InitialNodeTable(st, isUpdate, keying);
    KeyedInjective(st.heap, t, keying);
    var p := NodePass(st.heap, t, []);
    var off := Offset(lastClick, nodes);
    AddNodesTable(p, nodes, off);
    var r := AddNodes(p, nodes, off);
    forall k | k in Macs(nodes)
      ensures k in r.table
    {
      MacsMembers(nodes, k);
    }
  }

  /** `updateGraph` throws exactly when some link has an end that is neither a
      key of the previous `nodeDict` nor a MAC of the snapshot. It then stops
      at the first such link: `intLinks` holds the links before it. */
  lemma {:induction false} ReconcileThrows(st: Store, nodes: seq<NodeSnap>, links: seq<LinkSnap>, isUpdate: bool,
                                           lastClick: Point, keying: NodeKeying)
    requires StoreValid(st)
    ensures var out := Reconcile(st, nodes, links, isUpdate, lastClick, keying);
      var keys := KnownKeys(InitialNodeTable(st, isUpdate, keying), nodes);
      var n := |out.store.intLinks|;
      && n <= |links|
      && (out.threw <==> exists i | 0 <= i < |links| :: !EndsKnown(keys, links[i]))
      && (forall i | 0 <= i < n :: EndsKnown(keys, links[i]))
      && (out.threw ==> n < |links| && !EndsKnown(keys, links[n]))
      && (!out.threw ==> n == |links|)
  {
    var np := NodePhase(st, nodes, isUpdate, lastClick, keying);
    NodePhaseKeys(st, nodes, isUpdate, lastClick, keying);
    var t := InitialLinkTable(st, isUpdate);
    LinkKeyedInjective(st.heap, t);
    var p := LinkPass(np.heap, t, [], false);
    AddLinksProgress(p, np.table, links);
    var lp := AddLinks(p, np.table, links);
    assert forall l :: Resolves(np.table, l) <==> EndsKnown(KnownKeys(InitialNodeTable(st, isUpdate, keying), nodes), l);
  }

  /** The store `Reconcile` returns holds the node objects the node pass
      left, with at most their index changed. */
  lemma ReconcileNodeObjects(st: Store, nodes: seq<NodeSnap>, links: seq<LinkSnap>, isUpdate: bool,
                             lastClick: Point, keying: NodeKeying)
    requires StoreValid(st)
    ensures var np := NodePhase(st, nodes, isUpdate, lastClick, keying);
      var out := Reconcile(st, nodes, links, isUpdate, lastClick, keying);
      && out.store.intNodes == np.pushed
      && forall n | n in np.heap.nodes ::
           n in out.store.heap.nodes && out.store.heap.nodes[n] == np.heap.nodes[n].(index := out.store.heap.nodes[n].index)
  {
  }

  /** Two entries of the new `intNodes` are the same object exactly when the
      snapshot nodes have the same MAC; each object carries its node's MAC,
      and the node itself when no later node has that MAC. */
  lemma ReconcileNodeIdentity(st: Store, nodes: seq<NodeSnap>, links: seq<LinkSnap>, isUpdate: bool,
                              lastClick: Point, keying: NodeKeying)
    requires StoreValid(st)
    ensures var s := Reconcile(st, nodes, links, isUpdate, lastClick, keying).store;
      && |s.intNodes| == |nodes|
      && (forall i, j | 0 <= i < |nodes| && 0 <= j < |nodes| :: s.intNodes[i] == s.intNodes[j] <==> nodes[i].mac == nodes[j].mac)
      && (forall i | 0 <= i < |nodes| :: s.heap.nodes[s.intNodes[i]].o.mac == nodes[i].mac)
      && (forall i | 0 <= i < |nodes| && LastWithMac(nodes, i) :: s.heap.nodes[s.intNodes[i]].o == nodes[i])
  {
    var t := InitialNodeTable(st, isUpdate, keying);
    KeyedInjective(st.heap, t, keying);
    var p := NodePass(st.heap, t, []);
    var off := Offset(lastClick, nodes);
    var np := AddNodes(p, nodes, off);
    assert np == NodePhase(st, nodes, isUpdate, lastClick, keying);
    var s := Reconcile(st, nodes, links, isUpdate, lastClick, keying).store;
    AddNodesIdentity(p, nodes, off);
    AddNodesPayload(p, nodes, off);
    ReconcileNodeObjects(st, nodes, links, isUpdate, lastClick, keying);
    assert s.intNodes == np.pushed;
    forall i | 0 <= i < |nodes|
      ensures s.heap.nodes[s.intNodes[i]].o == np.heap.nodes[np.pushed[i]].o
    {
      assert np.pushed[i] in np.heap.nodes;
    }
  }

  /** A node whose MAC is a key of the previous `nodeDict` gets the object
      under that key back, at the position the simulation had given it. */
  lemma ReconcileKeepsNodes(st: Store, nodes: seq<NodeSnap>, links: seq<LinkSnap>, isUpdate: bool,
                            lastClick: Point, keying: NodeKeying)
    requires StoreValid(st)
    ensures var t := InitialNodeTable(st, isUpdate, keying);
      var s := Reconcile(st, nodes, links, isUpdate, lastClick, keying).store;
      && |s.intNodes| == |nodes|
      && forall i | 0 <= i < |nodes| && nodes[i].mac in t ::
           && s.intNodes[i] == t[nodes[i].mac]
           && s.heap.nodes[s.intNodes[i]].x == st.heap.nodes[t[nodes[i].mac]].x
           && s.heap.nodes[s.intNodes[i]].y == st.heap.nodes[t[nodes[i].mac]].y
  {
    var t := InitialNodeTable(st, isUpdate, keying);
    KeyedInjective(st.heap, t, keying);
    var p := NodePass(st.heap, t, []);
    var off := Offset(lastClick, nodes);
    AddNodesTable(p, nodes, off);
    AddNodesKeepPositions(p, nodes, off);
    ReconcileNodeObjects(st, nodes, links, isUpdate, lastClick, keying);
  }

  /** The first node with a MAC the previous `nodeDict` lacks gets a new
      object, placed at its geographic position shifted by the offset that
      moves the snapshot's centroid to the last click. */
  lemma ReconcilePlacesNewNodes(st: Store, nodes: seq<NodeSnap>, links: seq<LinkSnap>, isUpdate: bool,
                                lastClick: Point, keying: NodeKeying)
    requires StoreValid(st)
    ensures var t := InitialNodeTable(st, isUpdate, keying);
      var off := Offset(lastClick, nodes);
      var s := Reconcile(st, nodes, links, isUpdate, lastClick, keying).store;
      && |s.intNodes| == |nodes|
      && forall i | 0 <= i < |nodes| && nodes[i].mac !in t && FirstWithMac(nodes, i) ::
           && s.intNodes[i] !in st.heap.nodes
           && s.heap.nodes[s.intNodes[i]].x == nodes[i].x + off.x
           && s.heap.nodes[s.intNodes[i]].y == nodes[i].y + off.y
  {
    var t := InitialNodeTable(st, isUpdate, keying);
    KeyedInjective(st.heap, t, keying);
    var p := NodePass(st.heap, t, []);
    var off := Offset(lastClick, nodes);
    AddNodesPlaceNew(p, nodes, off);
    ReconcileNodeObjects(st, nodes, links, isUpdate, lastClick, keying);
  }

  /** Without `is_update` nothing is reused: every node and link object of
      the new store is new. */
  lemma ReconcileFreshWithoutUpdate(st: Store, nodes: seq<NodeSnap>, links: seq<LinkSnap>,
                                    lastClick: Point, keying: NodeKeying)
    requires StoreValid(st)
    ensures var s := Reconcile(st, nodes, links, false, lastClick, keying).store;
      && (forall i | 0 <= i < |s.intNodes| :: s.intNodes[i] !in st.heap.nodes)
      && (forall i | 0 <= i < |s.intLinks| :: s.intLinks[i] !in st.heap.links)
  {
    var np := NodePhase(st, nodes, false, lastClick, keying);
    FreshNodes(st, nodes, lastClick, keying);
    FreshLinks(st, np, links);
    ReconcileNodeObjects(st, nodes, links, false, lastClick, keying);
  }

  lemma FreshNodes(st: Store, nodes: seq<NodeSnap>, lastClick: Point, keying: NodeKeying)
    requires StoreValid(st)
    ensures var np := NodePhase(st, nodes, false, lastClick, keying);
      && st.heap.next <= np.heap.next
      && forall i | 0 <= i < |np.pushed| :: np.pushed[i] !in st.heap.nodes
  {
    var p := NodePass(st.heap, map[], []);
    var off := Offset(lastClick, nodes);
    AddNodesTable(p, nodes, off);
    var np := AddNodes(p, nodes, off);
    forall i | 0 <= i < |np.pushed|
      ensures np.pushed[i] >= st.heap.next
    {
      assert np.table[nodes[i].mac] == np.pushed[i];
    }
  }

  lemma FreshLinks(st: Store, np: NodePass, links: seq<LinkSnap>)
    requires StoreValid(st) && NodePassValid(np)
    requires np.heap.links == st.heap.links && st.heap.next <= np.heap.next
    requires forall n | n in st.heap.nodes :: n in np.heap.nodes
    ensures var lp := LinkPhase(st, np, links, false);
      forall i | 0 <= i < |lp.pushed| :: lp.pushed[i] !in st.heap.links
  {
    var p := LinkPass(np.heap, map[], [], false);
    AddLinksTable(p, np.table, links);
    var lp := AddLinks(p, np.table, links);
    forall i | 0 <= i < |lp.pushed|
      ensures lp.pushed[i] >= st.heap.next
    {
      var k := SnapKey(np.heap, np.table, links[i]).value;
      assert lp.table[k] == lp.pushed[i];
    }
  }

  /** The sum of the `x` positions of the objects `refs` names. */
  function SumObjX(h: Heap, refs: seq<Ref>): real
    requires forall i | 0 <= i < |refs| :: refs[i] in h.nodes
    decreases |refs|
  {
    if |refs| == 0 then 0.0 else SumObjX(h, refs[..|refs| - 1]) + h.nodes[refs[|refs| - 1]].x
  }

  function SumObjY(h: Heap, refs: seq<Ref>): real
    requires forall i | 0 <= i < |refs| :: refs[i] in h.nodes
    decreases |refs|
  {
    if |refs| == 0 then 0.0 else SumObjY(h, refs[..|refs| - 1]) + h.nodes[refs[|refs| - 1]].y
  }

  /** `k` times `d`, as `k` additions. */
  function Times(k: nat, d: real): real
  {
    if k == 0 then 0.0 else Times(k - 1, d) + d
  }

  lemma {:induction false} TimesIsProduct(k: nat, d: real)
    ensures Times(k, d) == (k as real) * d
  {
    if k > 0 {
      TimesIsProduct(k - 1, d);
    }
  }

  /** Objects placed at the snapshot positions shifted by `dx` across sum
      to the snapshot's sum plus `|nodes|` times the shift. */
  lemma {:induction false} SumShiftX(h: Heap, refs: seq<Ref>, nodes: seq<NodeSnap>, dx: real)
    requires |refs| == |nodes|
    requires forall i | 0 <= i < |refs| :: refs[i] in h.nodes
    requires forall i | 0 <= i < |refs| :: h.nodes[refs[i]].x == nodes[i].x + dx
    ensures SumObjX(h, refs) == SumX(nodes) + Times(|nodes|, dx)
    decreases |refs|
  {
    if |refs| > 0 {
      var m := |refs| - 1;
      SumShiftX(h, refs[..m], nodes[..m], dx);
      assert nodes[..m] == nodes[..|nodes| - 1];
    }
  }

  /** The same, shifted by `dy` down. */
  lemma {:induction false} SumShiftY(h: Heap, refs: seq<Ref>, nodes: seq<NodeSnap>, dy: real)
    requires |refs| == |nodes|
    requires forall i | 0 <= i < |refs| :: refs[i] in h.nodes
    requires forall i | 0 <= i < |refs| :: h.nodes[refs[i]].y == nodes[i].y + dy
    ensures SumObjY(h, refs) == SumY(nodes) + Times(|nodes|, dy)
    decreases |refs|
  {
    if |refs| > 0 {
      var m := |refs| - 1;
      SumShiftY(h, refs[..m], nodes[..m], dy);
      assert nodes[..m] == nodes[..|nodes| - 1];
    }
  }

  /** A total of `sum` plus `k` times a shift that moves the mean `sum / k`
      to `c` has mean `c`. */
  lemma MeanAfterShift(sum: real, k: nat, c: real, shift: real, total: real)
    requires k > 0
    requires shift == c - sum / (k as real) && total == sum + Times(k, shift)
    ensures total / (k as real) == c
  {
    TimesIsProduct(k, shift);
    var n := k as real;
    var m := sum / n;
    assert n * m == sum;
    assert total == n * c;
  }

  /** Without `is_update`, and with every MAC appearing once, the new nodes
      are centred on the last click: the mean of their positions is
      `lastClick`. */
  lemma ReconcileCentroid(st: Store, nodes: seq<NodeSnap>, links: seq<LinkSnap>, lastClick: Point, keying: NodeKeying)
    requires StoreValid(st)
    requires |nodes| > 0 && DistinctMacs(nodes)
    ensures var s := Reconcile(st, nodes, links, false, lastClick, keying).store;
      && |s.intNodes| == |nodes|
      && SumObjX(s.heap, s.intNodes) / (|nodes| as real) == lastClick.x
      && SumObjY(s.heap, s.intNodes) / (|nodes| as real) == lastClick.y
  {
    var s := Reconcile(st, nodes, links, false, lastClick, keying).store;
    CentroidPlacement(st, nodes, links, lastClick, keying);
    CenteredMean(s.heap, s.intNodes, nodes, lastClick);
  }

  /** Objects placed at the snapshot positions shifted by `Offset` have the
      last click as their mean. */
  lemma CenteredMean(h: Heap, refs: seq<Ref>, nodes: seq<NodeSnap>, lastClick: Point)
    requires |refs| == |nodes| > 0
    requires forall i | 0 <= i < |refs| :: refs[i] in h.nodes
    requires forall i | 0 <= i < |refs| ::
      && h.nodes[refs[i]].x == nodes[i].x + Offset(lastClick, nodes).x
      && h.nodes[refs[i]].y == nodes[i].y + Offset(lastClick, nodes).y
    ensures SumObjX(h, refs) / (|nodes| as real) == lastClick.x
    ensures SumObjY(h, refs) / (|nodes| as real) == lastClick.y
  {
    var off := Offset(lastClick, nodes);
    var n := |nodes| as real;
    assert off == Point(lastClick.x - SumX(nodes) / n, lastClick.y - SumY(nodes) / n);
    CenteredMeanX(h, refs, nodes, lastClick.x, off.x);
    CenteredMeanY(h, refs, nodes, lastClick.y, off.y);
  }

  lemma CenteredMeanX(h: Heap, refs: seq<Ref>, nodes: seq<NodeSnap>, c: real, dx: real)
    requires |refs| == |nodes| > 0
    requires forall i | 0 <= i < |refs| :: refs[i] in h.nodes
    requires forall i | 0 <= i < |refs| :: h.nodes[refs[i]].x == nodes[i].x + dx
    requires dx == c - SumX(nodes) / (|nodes| as real)
    ensures SumObjX(h, refs) / (|nodes| as real) == c
  {
    SumShiftX(h, refs, nodes, dx);
    MeanAfterShift(SumX(nodes), |nodes|, c, dx, SumObjX(h, refs));
  }

  lemma CenteredMeanY(h: Heap, refs: seq<Ref>, nodes: seq<NodeSnap>, c: real, dy: real)
    requires |refs| == |nodes| > 0
    requires forall i | 0 <= i < |refs| :: refs[i] in h.nodes
    requires forall i | 0 <= i < |refs| :: h.nodes[refs[i]].y == nodes[i].y + dy
    requires dy == c - SumY(nodes) / (|nodes| as real)
    ensures SumObjY(h, refs) / (|nodes| as real) == c
  {
    SumShiftY(h, refs, nodes, dy);
    MeanAfterShift(SumY(nodes), |nodes|, c, dy, SumObjY(h, refs));
  }

  lemma CentroidPlacement(st: Store, nodes: seq<NodeSnap>, links: seq<LinkSnap>, lastClick: Point, keying: NodeKeying)
    requires StoreValid(st)
    requires DistinctMacs(nodes)
    ensures var s := Reconcile(st, nodes, links, false, lastClick, keying).store;
      var off := Offset(lastClick, nodes);
      && |s.intNodes| == |nodes|
      && forall i | 0 <= i < |nodes| ::
           && s.heap.nodes[s.intNodes[i]].x == nodes[i].x + off.x
           && s.heap.nodes[s.intNodes[i]].y == nodes[i].y + off.y
  {
    ReconcilePlacesNewNodes(st, nodes, links, false, lastClick, keying);
    AllPlacedShifted(st.heap, Reconcile(st, nodes, links, false, lastClick, keying).store, nodes,
                     Offset(lastClick, nodes), InitialNodeTable(st, false, keying));
  }

  /** With no previous `nodeDict` and distinct MACs every node is the first
      with its MAC and is new, so a store placing each such node at its
      position shifted by `off` places all of them that way. */
  lemma AllPlacedShifted(h0: Heap, s: Store, nodes: seq<NodeSnap>, off: Point, t: map<string, Ref>)
    requires StoreValid(s) && |s.intNodes| == |nodes|
    requires DistinctMacs(nodes) && t == map[]
    requires forall i | 0 <= i < |nodes| && nodes[i].mac !in t && FirstWithMac(nodes, i) ::
      && s.intNodes[i] !in h0.nodes
      && s.heap.nodes[s.intNodes[i]].x == nodes[i].x + off.x
      && s.heap.nodes[s.intNodes[i]].y == nodes[i].y + off.y
    ensures forall i | 0 <= i < |nodes| ::
      && s.heap.nodes[s.intNodes[i]].x == nodes[i].x + off.x
      && s.heap.nodes[s.intNodes[i]].y == nodes[i].y + off.y
  {
    forall i | 0 <= i < |nodes|
      ensures FirstWithMac(nodes, i)
    {
      forall j | 0 <= j < i
        ensures nodes[j].mac != nodes[i].mac
      {
      }
    }
  }

  /** The store `Reconcile` returns holds the link objects the link pass
      left, with at most their index changed. */
  lemma ReconcileLinkObjects(st: Store, nodes: seq<NodeSnap>, links: seq<LinkSnap>, isUpdate: bool,
                             lastClick: Point, keying: NodeKeying)
    requires StoreValid(st)
    ensures var np := NodePhase(st, nodes, isUpdate, lastClick, keying);
      var lp := LinkPhase(st, np, links, isUpdate);
      var out := Reconcile(st, nodes, links, isUpdate, lastClick, keying);
      && out.store.intLinks == lp.pushed
      && out.threw == lp.threw
      && forall l | l in lp.heap.links ::
           l in out.store.heap.links && out.store.heap.links[l] == lp.heap.links[l].(index := out.store.heap.links[l].index)
  {
  }

  /** Two entries of the new `intLinks` are the same object exactly when
      their links have the same `linkId`; each carries its link snapshot
      when no later pushed link has the same `linkId`. */
  lemma ReconcileLinkIdentity(st: Store, nodes: seq<NodeSnap>, links: seq<LinkSnap>, isUpdate: bool,
                              lastClick: Point, keying: NodeKeying)
    requires StoreValid(st)
    ensures var np := NodePhase(st, nodes, isUpdate, lastClick, keying);
      var s := Reconcile(st, nodes, links, isUpdate, lastClick, keying).store;
      var n := |s.intLinks|;
      && n <= |links|
      && (forall i, j | 0 <= i < n && 0 <= j < n ::
            s.intLinks[i] == s.intLinks[j] <==> SnapKey(np.heap, np.table, links[i]) == SnapKey(np.heap, np.table, links[j]))
      && (forall i | 0 <= i < n && LastWithKey(np.heap, np.table, links, n, i) :: s.heap.links[s.intLinks[i]].o == links[i])
  {
    var np := NodePhase(st, nodes, isUpdate, lastClick, keying);
    var t := InitialLinkTable(st, isUpdate);
    LinkKeyedInjective(st.heap, t);
    var p := LinkPass(np.heap, t, [], false);
    var lp := AddLinks(p, np.table, links);
    assert lp == LinkPhase(st, np, links, isUpdate);
    var s := Reconcile(st, nodes, links, isUpdate, lastClick, keying).store;
    AddLinksIdentity(p, np.table, links);
    AddLinksPayload(p, np.table, links);
    ReconcileLinkObjects(st, nodes, links, isUpdate, lastClick, keying);
    LinkIdentityCarried(p, np.table, links, lp, s);
  }

  /** What the link pass `lp` says about identity and payload carries over
      to a store holding its `pushed` and its link objects, re-indexed. */
  lemma LinkIdentityCarried(p: LinkPass, nodeTable: map<string, Ref>, links: seq<LinkSnap>, lp: LinkPass, s: Store)
    requires TableIn(nodeTable, p.heap) && StoreValid(s)
    requires |lp.pushed| <= |links|
    requires forall i, j | 0 <= i < |lp.pushed| && 0 <= j < |lp.pushed| ::
      lp.pushed[i] == lp.pushed[j] <==> SnapKey(p.heap, nodeTable, links[i]) == SnapKey(p.heap, nodeTable, links[j])
    requires LinkPayloads(p, nodeTable, links, lp)
    requires s.intLinks == lp.pushed
    requires forall l | l in lp.heap.links ::
      l in s.heap.links && s.heap.links[l] == lp.heap.links[l].(index := s.heap.links[l].index)
    ensures var n := |s.intLinks|;
      && (forall i, j | 0 <= i < n && 0 <= j < n ::
            s.intLinks[i] == s.intLinks[j] <==> SnapKey(p.heap, nodeTable, links[i]) == SnapKey(p.heap, nodeTable, links[j]))
      && (forall i | 0 <= i < n && LastWithKey(p.heap, nodeTable, links, n, i) :: s.heap.links[s.intLinks[i]].o == links[i])
  {
    forall i | 0 <= i < |lp.pushed|
      ensures s.heap.links[s.intLinks[i]].o == lp.heap.links[lp.pushed[i]].o
    {
      assert lp.pushed[i] in lp.heap.links;
    }
  }

  /** A link whose `linkId` is a key of the previous `linkDict` gets the link
      object under that key back, still joining the same two node objects. */
  lemma ReconcileKeepsLinks(st: Store, nodes: seq<NodeSnap>, links: seq<LinkSnap>, isUpdate: bool,
                            lastClick: Point, keying: NodeKeying)
    requires StoreValid(st)
    ensures KeepsOldLinks(st.heap, NodePhase(st, nodes, isUpdate, lastClick, keying), InitialLinkTable(st, isUpdate),
                          Reconcile(st, nodes, links, isUpdate, lastClick, keying).store, links)
  {
    var np := NodePhase(st, nodes, isUpdate, lastClick, keying);
    var t := InitialLinkTable(st, isUpdate);
    LinkKeyedInjective(st.heap, t);
    var p := LinkPass(np.heap, t, [], false);
    AddLinksEnds(p, np.table, links);
    ReconcileLinkObjects(st, nodes, links, isUpdate, lastClick, keying);
  }

  /** The first link with a `linkId` the previous `linkDict` lacks gets a new
      link object joining the node objects `nodeDict` holds under its two
      end keys. */
  lemma ReconcileNewLinks(st: Store, nodes: seq<NodeSnap>, links: seq<LinkSnap>, isUpdate: bool,
                          lastClick: Point, keying: NodeKeying)
    requires StoreValid(st)
    ensures JoinsNewLinks(st.heap, NodePhase(st, nodes, isUpdate, lastClick, keying), InitialLinkTable(st, isUpdate),
                          Reconcile(st, nodes, links, isUpdate, lastClick, keying).store, links)
  {
    var np := NodePhase(st, nodes, isUpdate, lastClick, keying);
    var t := InitialLinkTable(st, isUpdate);
    LinkKeyedInjective(st.heap, t);
    var p := LinkPass(np.heap, t, [], false);
    AddLinksEnds(p, np.table, links);
    ReconcileLinkObjects(st, nodes, links, isUpdate, lastClick, keying);
  }

  /** After an update that did not throw, d3 has numbered the objects by
      position: each node and each link carries the last position it has in
      `intNodes` and `intLinks`. */
  lemma ReconcileIndexes(st: Store, nodes: seq<NodeSnap>, links: seq<LinkSnap>, isUpdate: bool,
                         lastClick: Point, keying: NodeKeying)
    requires StoreValid(st)
    ensures var np := NodePhase(st, nodes, isUpdate, lastClick, keying);
      var out := Reconcile(st, nodes, links, isUpdate, lastClick, keying);
      var s := out.store;
      && |s.intNodes| == |nodes| && |s.intLinks| <= |links|
      && (!out.threw ==> |s.intLinks| == |links|)
      && (!out.threw ==> forall i | 0 <= i < |nodes| && LastWithMac(nodes, i) :: s.heap.nodes[s.intNodes[i]].index == Some(i))
      && (!out.threw ==> forall i | 0 <= i < |links| && LastWithKey(np.heap, np.table, links, |links|, i) ::
            s.heap.links[s.intLinks[i]].index == Some(i))
  {
    ReconcileThrows(st, nodes, links, isUpdate, lastClick, keying);
    ReconcileNodeIndexes(st, nodes, links, isUpdate, lastClick, keying);
    ReconcileLinkIndexes(st, nodes, links, isUpdate, lastClick, keying);
  }

  lemma ReconcileNodeIndexes(st: Store, nodes: seq<NodeSnap>, links: seq<LinkSnap>, isUpdate: bool,
                             lastClick: Point, keying: NodeKeying)
    requires StoreValid(st)
    ensures var out := Reconcile(st, nodes, links, isUpdate, lastClick, keying);
      var s := out.store;
      && |s.intNodes| == |nodes|
      && (!out.threw ==> forall i | 0 <= i < |nodes| && LastWithMac(nodes, i) :: s.heap.nodes[s.intNodes[i]].index == Some(i))
  {
    var np := NodePhase(st, nodes, isUpdate, lastClick, keying);
    var lp := LinkPhase(st, np, links, isUpdate);
    var out := Reconcile(st, nodes, links, isUpdate, lastClick, keying);
    ReconcileNodeIdentity(st, nodes, links, isUpdate, lastClick, keying);
    if !out.threw {
      assert out.store.heap == IndexLinks(IndexNodes(lp.heap, np.pushed), lp.pushed);
      forall i | 0 <= i < |nodes| && LastWithMac(nodes, i)
        ensures out.store.heap.nodes[out.store.intNodes[i]].index == Some(i)
      {
        forall j | i < j < |np.pushed|
          ensures np.pushed[j] != np.pushed[i]
        {
          assert nodes[j].mac != nodes[i].mac;
        }
        IndexedNodeLast(lp.heap, np.pushed, lp.pushed, i);
      }
    }
  }

  lemma ReconcileLinkIndexes(st: Store, nodes: seq<NodeSnap>, links: seq<LinkSnap>, isUpdate: bool,
                             lastClick: Point, keying: NodeKeying)
    requires StoreValid(st)
    ensures var np := NodePhase(st, nodes, isUpdate, lastClick, keying);
      var out := Reconcile(st, nodes, links, isUpdate, lastClick, keying);
      var s := out.store;
      && |s.intLinks| <= |links|
      && (!out.threw ==> |s.intLinks| == |links|)
      && (!out.threw ==> forall i | 0 <= i < |links| && LastWithKey(np.heap, np.table, links, |links|, i) ::
            s.heap.links[s.intLinks[i]].index == Some(i))
  {
    var np := NodePhase(st, nodes, isUpdate, lastClick, keying);
    var lp := LinkPhase(st, np, links, isUpdate);
    var out := Reconcile(st, nodes, links, isUpdate, lastClick, keying);
    ReconcileLinkIdentity(st, nodes, links, isUpdate, lastClick, keying);
    ReconcileLinkObjects(st, nodes, links, isUpdate, lastClick, keying);
    var t := InitialLinkTable(st, isUpdate);
    LinkKeyedInjective(st.heap, t);
    AddLinksProgress(LinkPass(np.heap, t, [], false), np.table, links);
    if !out.threw {
      assert out.store.heap == IndexLinks(IndexNodes(lp.heap, np.pushed), lp.pushed);
      forall i | 0 <= i < |links| && LastWithKey(np.heap, np.table, links, |links|, i)
        ensures out.store.heap.links[out.store.intLinks[i]].index == Some(i)
      {
        forall j | i < j < |lp.pushed|
          ensures lp.pushed[j] != lp.pushed[i]
        {
          assert SnapKey(np.heap, np.table, links[j]) != SnapKey(np.heap, np.table, links[i]);
        }
        IndexedLinkLast(lp.heap, np.pushed, lp.pushed, i);
      }
    }
  }

  lemma IndexedNodeLast(h: Heap, nodeRefs: seq<Ref>, linkRefs: seq<Ref>, i: nat)
    requires forall j | 0 <= j < |nodeRefs| :: nodeRefs[j] in h.nodes
    requires forall j | 0 <= j < |linkRefs| :: linkRefs[j] in h.links
    requires i < |nodeRefs| && forall j | i < j < |nodeRefs| :: nodeRefs[j] != nodeRefs[i]
    ensures IndexLinks(IndexNodes(h, nodeRefs), linkRefs).nodes[nodeRefs[i]].index == Some(i)
  {
    IndexNodesLast(h, nodeRefs, i);
  }

  lemma IndexedLinkLast(h: Heap, nodeRefs: seq<Ref>, linkRefs: seq<Ref>, i: nat)
    requires forall j | 0 <= j < |nodeRefs| :: nodeRefs[j] in h.nodes
    requires forall j | 0 <= j < |linkRefs| :: linkRefs[j] in h.links
    requires i < |linkRefs| && forall j | i < j < |linkRefs| :: linkRefs[j] != linkRefs[i]
    ensures IndexLinks(IndexNodes(h, nodeRefs), linkRefs).links[linkRefs[i]].index == Some(i)
  {
    IndexLinksLast(IndexNodes(h, nodeRefs), linkRefs, i);
  }
}
