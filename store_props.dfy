/** What `updateGraph` guarantees about the store it rebuilds, proved about
    `Store.Reconcile` and the passes it is made of. */
module StoreProps {
  import opened Basics
  import opened Text
  import opened Geometry
  import opened Store
  import opened LinkPasses

  /** The MACs of a snapshot. */
  function Macs(nodes: seq<NodeSnap>): set<string>
    decreases |nodes|
  {
    if |nodes| == 0 then {} else Macs(nodes[..|nodes| - 1]) + {nodes[|nodes| - 1].mac}
  }

  lemma {:induction false} MacsMembers(nodes: seq<NodeSnap>, k: string)
    ensures k in Macs(nodes) <==> exists j | 0 <= j < |nodes| :: nodes[j].mac == k
    decreases |nodes|
  {
    if |nodes| > 0 {
      var init := nodes[..|nodes| - 1];
      MacsMembers(init, k);
      assert forall j | 0 <= j < |init| :: init[j] == nodes[j];
    }
  }

  /** No earlier snapshot node has the MAC of node `i`. */
  predicate FirstWithMac(nodes: seq<NodeSnap>, i: nat)
    requires i < |nodes|
  {
    forall j | 0 <= j < i :: nodes[j].mac != nodes[i].mac
  }

  /** No later snapshot node has the MAC of node `i`. */
  predicate LastWithMac(nodes: seq<NodeSnap>, i: nat)
    requires i < |nodes|
  {
    forall j | i < j < |nodes| :: nodes[j].mac != nodes[i].mac
  }

  predicate DistinctMacs(nodes: seq<NodeSnap>)
  {
    forall i, j | 0 <= i < j < |nodes| :: nodes[i].mac != nodes[j].mac
  }

  // ---------------------------------------------------------------------
  // linkId

  /** Of the previous nodes sharing a key, `nodeDict` keeps the last: a node
      no later node shares its key with is the one filed under it. */
  lemma {:induction false} NodeTableLastWins(h: Heap, refs: seq<Ref>, keying: NodeKeying, i: nat)
    requires forall j | 0 <= j < |refs| :: refs[j] in h.nodes
    requires i < |refs|
    requires forall j | i < j < |refs| :: NodeKey(h.nodes[refs[j]], keying) != NodeKey(h.nodes[refs[i]], keying)
    ensures NodeTable(h, refs, keying)[NodeKey(h.nodes[refs[i]], keying)] == refs[i]
    decreases |refs|
  {
    var init := refs[..|refs| - 1];
    if i < |refs| - 1 {
      assert forall j | 0 <= j < |init| :: init[j] == refs[j];
      NodeTableLastWins(h, init, keying, i);
    }
  }

  /** Of the previous links sharing a `linkId`, `linkDict` keeps the last. */
  lemma {:induction false} LinkTableLastWins(h: Heap, refs: seq<Ref>, i: nat)
    requires HeapValid(h)
    requires forall j | 0 <= j < |refs| :: refs[j] in h.links
    requires i < |refs|
    requires forall j | i < j < |refs| ::
      LinkKey(h, h.links[refs[j]].source, h.links[refs[j]].target) != LinkKey(h, h.links[refs[i]].source, h.links[refs[i]].target)
    ensures LinkTable(h, refs)[LinkKey(h, h.links[refs[i]].source, h.links[refs[i]].target)] == refs[i]
    decreases |refs|
  {
    var init := refs[..|refs| - 1];
    if i < |refs| - 1 {
      assert forall j | 0 <= j < |init| :: init[j] == refs[j];
      LinkTableLastWins(h, init, i);
    }
  }

  /** `linkId` is the smaller MAC, `=>`, the larger one, whatever the order
      of its arguments. */
  lemma LinkIdSorted(smac: string, tmac: string, lo: string, hi: string)
    requires (lo == smac && hi == tmac) || (lo == tmac && hi == smac)
    requires !LexLess(hi, lo)
    ensures LinkId(smac, tmac) == lo + "=>" + hi
  {
    LexLessTotal(smac, tmac);
  }

  /** A link is found under the same key from either end. */
  lemma LinkIdSymmetric(smac: string, tmac: string)
    ensures LinkId(smac, tmac) == LinkId(tmac, smac)
  {
    LexLessTotal(smac, tmac);
    LexLessAsymmetric(smac, tmac);
    if LexLess(tmac, smac) {
      LinkIdSorted(tmac, smac, tmac, smac);
    } else {
      LinkIdSorted(tmac, smac, smac, tmac);
    }
  }

  // ---------------------------------------------------------------------
  // The node pass

  /** One `addNode`: the node's MAC is now in the table and its entry is
      pushed; a new entry is made only for a MAC the table lacked, and leads to
      a new object. */
  lemma AddNodeTable(q: NodePass, node: NodeSnap, offset: Point)
    requires NodePassValid(q)
    ensures var r := AddNode(q, node, offset);
      && node.mac in r.table
      && r.pushed == q.pushed + [r.table[node.mac]]
      && (forall k | k in q.table :: k in r.table && r.table[k] == q.table[k])
      && (forall k | k in r.table :: k in q.table || k == node.mac)
      && (node.mac !in q.table ==> r.table[node.mac] == q.heap.next && r.table[node.mac] !in q.heap.nodes)
      && q.heap.next <= r.heap.next
  {
  }

  /** What `nodes.map(addNode)` does to `nodeDict` and `intNodes`: one entry
      per snapshot node, the entry of node `i` being the object `nodeDict`
      holds under its MAC; entries already in the table stay; the others are
      MACs of the snapshot and lead to objects created during the pass. */
  lemma AddNodesTable(p: NodePass, nodes: seq<NodeSnap>, offset: Point)
    requires NodePassValid(p) && p.pushed == []
    ensures var r := AddNodes(p, nodes, offset);
      && |r.pushed| == |nodes|
      && (forall k | k in p.table :: k in r.table && r.table[k] == p.table[k])
      && (forall k | k in r.table :: k in p.table || k in Macs(nodes))
      && (forall k | k in r.table && k !in p.table :: r.table[k] >= p.heap.next)
      && (forall i | 0 <= i < |nodes| :: nodes[i].mac in r.table && r.table[nodes[i].mac] == r.pushed[i])
  {
    AddNodesKeys(p, nodes, offset);
    forall i | 0 <= i < |nodes| {
      AddNodesTableAt(p, nodes, offset, i);
    }
  }

  /** The keys `nodes.map(addNode)` leaves in `nodeDict`. */
  lemma {:induction false} AddNodesKeys(p: NodePass, nodes: seq<NodeSnap>, offset: Point)
    requires NodePassValid(p) && p.pushed == []
    ensures var r := AddNodes(p, nodes, offset);
      && |r.pushed| == |nodes|
      && (forall k | k in p.table :: k in r.table && r.table[k] == p.table[k])
      && (forall k | k in r.table :: k in p.table || k in Macs(nodes))
      && (forall k | k in r.table && k !in p.table :: r.table[k] >= p.heap.next)
    decreases |nodes|
  {
    if |nodes| > 0 {
      var last := |nodes| - 1;
      var init := nodes[..last];
      AddNodesKeys(p, init, offset);
      var q := AddNodes(p, init, offset);
      assert AddNodes(p, nodes, offset) == AddNode(q, nodes[last], offset);
      AddNodeTable(q, nodes[last], offset);
      assert Macs(nodes) == Macs(init) + {nodes[last].mac};
    }
  }

  /** The entry of node `i` is what `nodeDict` holds under its MAC. */
  lemma {:induction false} AddNodesTableAt(p: NodePass, nodes: seq<NodeSnap>, offset: Point, i: nat)
    requires NodePassValid(p) && p.pushed == [] && i < |nodes|
    ensures var r := AddNodes(p, nodes, offset);
      && |r.pushed| == |nodes|
      && nodes[i].mac in r.table && r.table[nodes[i].mac] == r.pushed[i]
    decreases |nodes|
  {
    var last := |nodes| - 1;
    var init := nodes[..last];
    AddNodesKeys(p, init, offset);
    var q := AddNodes(p, init, offset);
    var r := AddNodes(p, nodes, offset);
    assert r == AddNode(q, nodes[last], offset);
    AddNodeTable(q, nodes[last], offset);
    if i < last {
      assert init[i] == nodes[i];
      AddNodesTableAt(p, init, offset, i);
      var k := nodes[i].mac;
      assert k in q.table && q.table[k] == q.pushed[i];
      assert r.table[k] == q.table[k];
      assert r.pushed[i] == q.pushed[i];
    } else {
      assert i == |q.pushed|;
      assert r.pushed[i] == r.table[nodes[i].mac];
    }
  }

  /** One `addNode` changes no object but the one it pushes: that one gets the
      snapshot as its `o`, and when it is new it sits at the snapshot position
      plus `offset`. Positions and indices of existing objects stay. */
  lemma AddNodeObjects(q: NodePass, node: NodeSnap, offset: Point)
    requires NodePassValid(q)
    ensures var r := AddNode(q, node, offset);
      && |r.pushed| == |q.pushed| + 1
      && r.pushed[|q.pushed|] in r.heap.nodes
      && r.heap.nodes[r.pushed[|q.pushed|]].o == node
      && (forall m | m in q.heap.nodes && m != r.pushed[|q.pushed|] :: m in r.heap.nodes && r.heap.nodes[m] == q.heap.nodes[m])
      && (forall m | m in q.heap.nodes ::
            && m in r.heap.nodes
            && r.heap.nodes[m].x == q.heap.nodes[m].x
            && r.heap.nodes[m].y == q.heap.nodes[m].y
            && r.heap.nodes[m].index == q.heap.nodes[m].index)
      && (node.mac !in q.table ==>
            r.heap.nodes[r.pushed[|q.pushed|]] == NodeObj(node.x + offset.x, node.y + offset.y, node, None))
  {
  }

  /** Objects that existed before `nodes.map(addNode)` keep their position
      and index. */
  lemma {:induction false} AddNodesKeepPositions(p: NodePass, nodes: seq<NodeSnap>, offset: Point)
    requires NodePassValid(p)
    ensures var r := AddNodes(p, nodes, offset);
      forall n | n in p.heap.nodes ::
        && r.heap.nodes[n].x == p.heap.nodes[n].x
        && r.heap.nodes[n].y == p.heap.nodes[n].y
        && r.heap.nodes[n].index == p.heap.nodes[n].index
    decreases |nodes|
  {
    if |nodes| > 0 {
      var last := |nodes| - 1;
      var init := nodes[..last];
      AddNodesKeepPositions(p, init, offset);
      var q := AddNodes(p, init, offset);
      var r := AddNodes(p, nodes, offset);
      assert r == AddNode(q, nodes[last], offset);
      AddNodeObjects(q, nodes[last], offset);
    }
  }

  /** The first node with a MAC the table does not hold gets a new object at
      its snapshot position plus `offset`. */
  lemma AddNodesPlaceNew(p: NodePass, nodes: seq<NodeSnap>, offset: Point)
    requires NodePassValid(p) && p.pushed == []
    ensures var r := AddNodes(p, nodes, offset);
      && |r.pushed| == |nodes|
      && forall i | 0 <= i < |nodes| && nodes[i].mac !in p.table && FirstWithMac(nodes, i) ::
           && r.pushed[i] !in p.heap.nodes
           && r.heap.nodes[r.pushed[i]].x == nodes[i].x + offset.x
           && r.heap.nodes[r.pushed[i]].y == nodes[i].y + offset.y
           && r.heap.nodes[r.pushed[i]].index == None
  {
    AddNodesTable(p, nodes, offset);
    forall i | 0 <= i < |nodes| && nodes[i].mac !in p.table && FirstWithMac(nodes, i) {
      AddNodesPlacesAt(p, nodes, offset, i);
    }
  }

  /** Node `i` of `AddNodesPlaceNew`, by induction on the snapshot. */
  lemma {:induction false} AddNodesPlacesAt(p: NodePass, nodes: seq<NodeSnap>, offset: Point, i: nat)
    requires NodePassValid(p) && p.pushed == []
    requires i < |nodes| && nodes[i].mac !in p.table && FirstWithMac(nodes, i)
    ensures var r := AddNodes(p, nodes, offset);
      && |r.pushed| == |nodes|
      && r.pushed[i] in r.heap.nodes
      && r.pushed[i] !in p.heap.nodes
      && r.heap.nodes[r.pushed[i]].x == nodes[i].x + offset.x
      && r.heap.nodes[r.pushed[i]].y == nodes[i].y + offset.y
      && r.heap.nodes[r.pushed[i]].index == None
    decreases |nodes|
  {
    var last := |nodes| - 1;
    var init := nodes[..last];
    AddNodesKeys(p, init, offset);
    var q := AddNodes(p, init, offset);
    var r := AddNodes(p, nodes, offset);
    assert r == AddNode(q, nodes[last], offset);
    if i < last {
      assert init[i] == nodes[i];
      assert FirstWithMac(init, i);
      AddNodesPlacesAt(p, init, offset, i);
      AddNodeKeepsPushed(q, nodes[last], offset, i);
    } else {
      assert i == |q.pushed|;
      MacsMembers(init, nodes[i].mac);
      assert nodes[i].mac !in q.table;
      AddNodePlacesNew(q, nodes[i], offset);
    }
  }

  /** `addNode` leaves the entry of an earlier node, and that object's
      position and index, as they were. */
  lemma AddNodeKeepsPushed(q: NodePass, node: NodeSnap, offset: Point, i: nat)
    requires NodePassValid(q) && i < |q.pushed|
    ensures var r := AddNode(q, node, offset);
      var m := q.pushed[i];
      && |r.pushed| == |q.pushed| + 1
      && r.pushed[i] == m
      && m in r.heap.nodes
      && r.heap.nodes[m].x == q.heap.nodes[m].x
      && r.heap.nodes[m].y == q.heap.nodes[m].y
      && r.heap.nodes[m].index == q.heap.nodes[m].index
  {
    AddNodeTable(q, node, offset);
    AddNodeObjects(q, node, offset);
  }

  /** `addNode` of a MAC `nodeDict` lacks pushes a new object, numbered
      `next`, at the node's position shifted by `offset` and not yet indexed. */
  lemma AddNodePlacesNew(q: NodePass, node: NodeSnap, offset: Point)
    requires NodePassValid(q) && node.mac !in q.table
    ensures var r := AddNode(q, node, offset);
      && |r.pushed| == |q.pushed| + 1
      && r.pushed[|q.pushed|] == q.heap.next
      && q.heap.next in r.heap.nodes
      && r.heap.nodes[q.heap.next].x == node.x + offset.x
      && r.heap.nodes[q.heap.next].y == node.y + offset.y
      && r.heap.nodes[q.heap.next].index == None
  {
    AddNodeTable(q, node, offset);
    AddNodeObjects(q, node, offset);
  }

  /** Every object of the rebuilt `intNodes` carries the MAC of its snapshot
      node, and the snapshot itself when no later node has the same MAC. */
  lemma AddNodesPayload(p: NodePass, nodes: seq<NodeSnap>, offset: Point)
    requires NodePassValid(p) && p.pushed == []
    ensures var r := AddNodes(p, nodes, offset);
      && |r.pushed| == |nodes|
      && (forall i | 0 <= i < |nodes| :: r.heap.nodes[r.pushed[i]].o.mac == nodes[i].mac)
      && (forall i | 0 <= i < |nodes| && LastWithMac(nodes, i) :: r.heap.nodes[r.pushed[i]].o == nodes[i])
  {
    AddNodesTable(p, nodes, offset);
    forall i | 0 <= i < |nodes| {
      AddNodesPayloadAt(p, nodes, offset, i);
    }
  }

  /** Node `i` of `AddNodesPayload`, by induction on the snapshot. */
  lemma {:induction false} AddNodesPayloadAt(p: NodePass, nodes: seq<NodeSnap>, offset: Point, i: nat)
    requires NodePassValid(p) && p.pushed == [] && i < |nodes|
    ensures var r := AddNodes(p, nodes, offset);
      && |r.pushed| == |nodes|
      && r.pushed[i] in r.heap.nodes
      && r.heap.nodes[r.pushed[i]].o.mac == nodes[i].mac
      && (LastWithMac(nodes, i) ==> r.heap.nodes[r.pushed[i]].o == nodes[i])
    decreases |nodes|
  {
    var last := |nodes| - 1;
    var init := nodes[..last];
    AddNodesKeys(p, init, offset);
    var q := AddNodes(p, init, offset);
    var r := AddNodes(p, nodes, offset);
    assert r == AddNode(q, nodes[last], offset);
    assert |q.pushed| == last;
    if i < last {
      assert init[i] == nodes[i];
      AddNodesPayloadAt(p, init, offset, i);
      AddNodesTableAt(p, init, offset, i);
      PayloadAfterAddNode(q, nodes[last], offset, i, nodes[i]);
      assert r.heap.nodes[r.pushed[i]].o.mac == nodes[i].mac;
      if LastWithMac(nodes, i) {
        assert nodes[last].mac != nodes[i].mac;
        assert LastWithMac(init, i) by {
          forall j | i < j < |init|
            ensures init[j].mac != init[i].mac
          {
            assert init[j] == nodes[j];
          }
        }
        assert r.heap.nodes[r.pushed[i]].o == nodes[i];
      }
    } else {
      assert i == |q.pushed|;
      AddNodeObjects(q, nodes[i], offset);
    }
  }

  /** One `addNode` after node `i` was pushed, filed in `nodeDict` under its
      MAC with an object carrying that MAC: the entry stays, still carrying
      the MAC, and unless the new node has that MAC too its object is
      untouched. */
  lemma PayloadAfterAddNode(q: NodePass, node: NodeSnap, offset: Point, i: nat, nodeI: NodeSnap)
    requires NodePassValid(q) && i < |q.pushed|
    requires nodeI.mac in q.table && q.table[nodeI.mac] == q.pushed[i]
    requires q.heap.nodes[q.pushed[i]].o.mac == nodeI.mac
    ensures var r := AddNode(q, node, offset);
      var m := q.pushed[i];
      && |r.pushed| == |q.pushed| + 1
      && r.pushed[i] == m
      && m in r.heap.nodes
      && r.heap.nodes[m].o.mac == nodeI.mac
      && (node.mac != nodeI.mac ==> r.heap.nodes[m].o == q.heap.nodes[m].o)
  {
    AddNodeTable(q, node, offset);
    AddNodeObjects(q, node, offset);
    var r := AddNode(q, node, offset);
    var m := q.pushed[i];
    assert r.pushed[i] == m;
    if m == r.pushed[|q.pushed|] {
      assert r.table[node.mac] == m == r.table[nodeI.mac];
      assert node.mac == nodeI.mac;
    }
  }

  /** Two entries of the rebuilt `intNodes` are the same object exactly when
      their snapshot nodes have the same MAC. */
  lemma AddNodesIdentity(p: NodePass, nodes: seq<NodeSnap>, offset: Point)
    requires NodePassValid(p) && p.pushed == []
    ensures var r := AddNodes(p, nodes, offset);
      && |r.pushed| == |nodes|
      && (forall i, j | 0 <= i < |nodes| && 0 <= j < |nodes| :: r.pushed[i] == r.pushed[j] <==> nodes[i].mac == nodes[j].mac)
  {
    AddNodesTable(p, nodes, offset);
  }

  // ---------------------------------------------------------------------
  // The link pass





  /** One `addLink`: after a throw it does nothing; it throws exactly when an
      end does not resolve; otherwise it pushes one link. */
  lemma AddLinkProgress(q: LinkPass, nodeTable: map<string, Ref>, link: LinkSnap)
    requires LinkPassValid(q, nodeTable)
    ensures var r := AddLink(q, nodeTable, link);
      && r.heap.nodes == q.heap.nodes
      && (q.threw ==> r == q)
      && (!q.threw && !Resolves(nodeTable, link) ==> r == q.(threw := true))
      && (!q.threw && Resolves(nodeTable, link) ==>
            !r.threw && |r.pushed| == |q.pushed| + 1 && r.pushed[..|q.pushed|] == q.pushed)
  {
  }

  /** One `addLink` of a link that resolves: its key is now in the table and
      its entry is pushed, a new entry being made only for a key the table
      lacked. */
  lemma AddLinkTable(q: LinkPass, nodeTable: map<string, Ref>, link: LinkSnap)
    requires LinkPassValid(q, nodeTable) && !q.threw && Resolves(nodeTable, link)
    ensures var r := AddLink(q, nodeTable, link);
      var id := LinkKey(q.heap, nodeTable[link.source], nodeTable[link.target]);
      && id in r.table
      && r.pushed == q.pushed + [r.table[id]]
      && (forall k | k in q.table :: k in r.table && r.table[k] == q.table[k])
      && (forall k | k in r.table :: k in q.table || k == id)
      && (id !in q.table ==> r.table[id] == q.heap.next && r.table[id] !in q.heap.links)
      && q.heap.next <= r.heap.next
  {
  }

  /** One `addLink` changes no link but the one it pushes: that one gets the
      snapshot as its `o`, and when it is new it joins the two resolved node
      objects. Ends and indices of existing links stay. */
  lemma AddLinkObjects(q: LinkPass, nodeTable: map<string, Ref>, link: LinkSnap)
    requires LinkPassValid(q, nodeTable) && !q.threw && Resolves(nodeTable, link)
    ensures var r := AddLink(q, nodeTable, link);
      && TableIn(nodeTable, q.heap)
      && |r.pushed| == |q.pushed| + 1
      && r.pushed[|q.pushed|] in r.heap.links
      && r.heap.links[r.pushed[|q.pushed|]].o == link
      && (forall m | m in q.heap.links && m != r.pushed[|q.pushed|] :: m in r.heap.links && r.heap.links[m] == q.heap.links[m])
      && (forall m | m in q.heap.links ::
            && m in r.heap.links
            && r.heap.links[m].source == q.heap.links[m].source
            && r.heap.links[m].target == q.heap.links[m].target
            && r.heap.links[m].index == q.heap.links[m].index)
      && (SnapKey(q.heap, nodeTable, link).value !in q.table ==>
            r.heap.links[r.pushed[|q.pushed|]] == LinkObj(nodeTable[link.source], nodeTable[link.target], link, None))
  {
  }

  /** Once a link has thrown, the rest of the snapshot changes nothing. */
  lemma {:induction false} AddLinksAfterThrow(p: LinkPass, nodeTable: map<string, Ref>, links: seq<LinkSnap>, n: nat)
    requires LinkPassValid(p, nodeTable) && n <= |links|
    requires AddLinks(p, nodeTable, links[..n]).threw
    ensures AddLinks(p, nodeTable, links) == AddLinks(p, nodeTable, links[..n])
    decreases |links|
  {
    if |links| > n {
      var init := links[..|links| - 1];
      assert init[..n] == links[..n];
      AddLinksAfterThrow(p, nodeTable, init, n);
    } else {
      assert links[..n] == links;
    }
  }


  lemma LinkStepProgress(nodeTable: map<string, Ref>, links: seq<LinkSnap>, q: LinkPass, link: LinkSnap)
    requires LinkPassValid(q, nodeTable) && LinksProgress(nodeTable, links, q)
    ensures LinksProgress(nodeTable, links + [link], AddLink(q, nodeTable, link))
  {
    AddLinkProgress(q, nodeTable, link);
    var r := AddLink(q, nodeTable, link);
    forall i | 0 <= i < |r.pushed|
      ensures Resolves(nodeTable, (links + [link])[i])
    {
      if i < |links| {
        assert (links + [link])[i] == links[i];
      }
    }
    if q.threw {
      assert (links + [link])[|q.pushed|] == links[|q.pushed|];
    }
  }

  /** `links.map(addLink)` pushes the links before the first one that does
      not resolve, and throws at that one. */
  lemma {:induction false} AddLinksProgress(p: LinkPass, nodeTable: map<string, Ref>, links: seq<LinkSnap>)
    requires LinkPassValid(p, nodeTable) && !p.threw && p.pushed == []
    ensures LinksProgress(nodeTable, links, AddLinks(p, nodeTable, links))
    decreases |links|
  {
    if |links| > 0 {
      var init := links[..|links| - 1];
      AddLinksProgress(p, nodeTable, init);
      assert links == init + [links[|links| - 1]];
      LinkStepProgress(nodeTable, init, AddLinks(p, nodeTable, init), links[|links| - 1]);
    }
  }


  lemma LinkStepTable(p: LinkPass, nodeTable: map<string, Ref>, links: seq<LinkSnap>, q: LinkPass, link: LinkSnap)
    requires LinkPassValid(q, nodeTable) && TableIn(nodeTable, p.heap)
    requires LinksTable(p, nodeTable, links, q)
    ensures LinksTable(p, nodeTable, links + [link], AddLink(q, nodeTable, link))
  {
    LinkStepProgress(nodeTable, links, q, link);
    AddLinkProgress(q, nodeTable, link);
    LinkStepKept(p, nodeTable, q, link);
    LinkStepGrown(p, nodeTable, links, q, link);
    LinkStepEntries(p, nodeTable, links, q, link);
  }

  lemma LinkStepKept(p: LinkPass, nodeTable: map<string, Ref>, q: LinkPass, link: LinkSnap)
    requires LinkPassValid(q, nodeTable) && TableKept(p, q)
    ensures TableKept(p, AddLink(q, nodeTable, link))
  {
    AddLinkProgress(q, nodeTable, link);
    if !q.threw && Resolves(nodeTable, link) {
      AddLinkTable(q, nodeTable, link);
    }
  }

  lemma LinkStepGrown(p: LinkPass, nodeTable: map<string, Ref>, links: seq<LinkSnap>, q: LinkPass, link: LinkSnap)
    requires LinkPassValid(q, nodeTable) && TableIn(nodeTable, p.heap)
    requires q.heap.nodes == p.heap.nodes && p.heap.next <= q.heap.next
    requires LinksProgress(nodeTable, links, q) && TableGrown(p, nodeTable, links, q)
    ensures TableGrown(p, nodeTable, links + [link], AddLink(q, nodeTable, link))
  {
    var r := AddLink(q, nodeTable, link);
    forall k | k in r.table && k !in p.table
      ensures r.table[k] >= p.heap.next
      ensures exists j | 0 <= j < |r.pushed| && j < |links + [link]| :: SnapKey(p.heap, nodeTable, (links + [link])[j]) == Some(k)
    {
      GrownKey(p, nodeTable, links, q, link, k);
    }
  }

  /** One key of `TableGrown` after one more `addLink`. */
  lemma GrownKey(p: LinkPass, nodeTable: map<string, Ref>, links: seq<LinkSnap>, q: LinkPass, link: LinkSnap, k: string)
    requires LinkPassValid(q, nodeTable) && TableIn(nodeTable, p.heap)
    requires q.heap.nodes == p.heap.nodes && p.heap.next <= q.heap.next
    requires LinksProgress(nodeTable, links, q) && TableGrown(p, nodeTable, links, q)
    requires k in AddLink(q, nodeTable, link).table && k !in p.table
    ensures var r := AddLink(q, nodeTable, link);
      && r.table[k] >= p.heap.next
      && exists j | 0 <= j < |r.pushed| && j < |links + [link]| :: SnapKey(p.heap, nodeTable, (links + [link])[j]) == Some(k)
  {
    if k in q.table {
      GrownKeyEarlier(p, nodeTable, links, q, link, k);
    } else {
      GrownKeyNow(p, nodeTable, links, q, link, k);
    }
  }

  /** `GrownKey` for a key the table already had before this step. */
  lemma GrownKeyEarlier(p: LinkPass, nodeTable: map<string, Ref>, links: seq<LinkSnap>, q: LinkPass, link: LinkSnap, k: string)
    requires LinkPassValid(q, nodeTable) && TableIn(nodeTable, p.heap)
    requires LinksProgress(nodeTable, links, q) && TableGrown(p, nodeTable, links, q)
    requires k in q.table && k !in p.table
    ensures var r := AddLink(q, nodeTable, link);
      && k in r.table
      && r.table[k] >= p.heap.next
      && exists j | 0 <= j < |r.pushed| && j < |links + [link]| :: SnapKey(p.heap, nodeTable, (links + [link])[j]) == Some(k)
  {
    AddLinkProgress(q, nodeTable, link);
    var r := AddLink(q, nodeTable, link);
    var all := links + [link];
    var j :| 0 <= j < |q.pushed| && j < |links| && SnapKey(p.heap, nodeTable, links[j]) == Some(k);
    assert all[j] == links[j];
    if !q.threw && Resolves(nodeTable, link) {
      AddLinkTable(q, nodeTable, link);
    }
    assert r.table[k] == q.table[k] && |q.pushed| <= |r.pushed|;
    assert 0 <= j < |r.pushed| && j < |all| && SnapKey(p.heap, nodeTable, all[j]) == Some(k);
  }

  /** `GrownKey` for a key this step adds: it is the key of the link pushed
      now, and its entry is a new link. */
  lemma GrownKeyNow(p: LinkPass, nodeTable: map<string, Ref>, links: seq<LinkSnap>, q: LinkPass, link: LinkSnap, k: string)
    requires LinkPassValid(q, nodeTable) && TableIn(nodeTable, p.heap)
    requires q.heap.nodes == p.heap.nodes && p.heap.next <= q.heap.next
    requires LinksProgress(nodeTable, links, q)
    requires k in AddLink(q, nodeTable, link).table && k !in q.table
    ensures var r := AddLink(q, nodeTable, link);
      && r.table[k] >= p.heap.next
      && exists j | 0 <= j < |r.pushed| && j < |links + [link]| :: SnapKey(p.heap, nodeTable, (links + [link])[j]) == Some(k)
  {
    AddLinkProgress(q, nodeTable, link);
    var r := AddLink(q, nodeTable, link);
    var all := links + [link];
    assert !q.threw && Resolves(nodeTable, link);
    AddLinkTable(q, nodeTable, link);
    var j := |links|;
    assert |q.pushed| == j && all[j] == link;
    assert 0 <= j < |r.pushed| && j < |all| && SnapKey(p.heap, nodeTable, all[j]) == Some(k);
  }

  lemma LinkStepEntries(p: LinkPass, nodeTable: map<string, Ref>, links: seq<LinkSnap>, q: LinkPass, link: LinkSnap)
    requires LinkPassValid(q, nodeTable) && TableIn(nodeTable, p.heap)
    requires q.heap.nodes == p.heap.nodes
    requires LinksProgress(nodeTable, links, q) && TableEntries(p, nodeTable, links, q)
    ensures TableEntries(p, nodeTable, links + [link], AddLink(q, nodeTable, link))
  {
    AddLinkProgress(q, nodeTable, link);
    var r := AddLink(q, nodeTable, link);
    var all := links + [link];
    if !q.threw && Resolves(nodeTable, link) {
      AddLinkTable(q, nodeTable, link);
      assert |q.pushed| == |links|;
      forall i | 0 <= i < |r.pushed| && i < |all|
        ensures SnapKey(p.heap, nodeTable, all[i]).Some?
        ensures SnapKey(p.heap, nodeTable, all[i]).value in r.table
        ensures r.table[SnapKey(p.heap, nodeTable, all[i]).value] == r.pushed[i]
      {
        if i < |links| {
          assert all[i] == links[i];
          assert r.pushed[i] == q.pushed[i];
        } else {
          assert all[i] == link;
        }
      }
    } else {
      assert r.table == q.table && r.pushed == q.pushed;
      forall i | 0 <= i < |r.pushed| && i < |all|
        ensures all[i] == links[i]
      {
      }
    }
  }

  lemma {:induction false} AddLinksTable(p: LinkPass, nodeTable: map<string, Ref>, links: seq<LinkSnap>)
    requires LinkPassValid(p, nodeTable) && !p.threw && p.pushed == []
    ensures TableIn(nodeTable, p.heap) && LinksTable(p, nodeTable, links, AddLinks(p, nodeTable, links))
    decreases |links|
  {
    if |links| > 0 {
      var init := links[..|links| - 1];
      AddLinksTable(p, nodeTable, init);
      assert links == init + [links[|links| - 1]];
      LinkStepTable(p, nodeTable, init, AddLinks(p, nodeTable, init), links[|links| - 1]);
    }
  }

  lemma FirstWithKeyExtend(h: Heap, nodeTable: map<string, Ref>, links: seq<LinkSnap>, link: LinkSnap, i: nat)
    requires TableIn(nodeTable, h) && i < |links|
    ensures FirstWithKey(h, nodeTable, links + [link], i) <==> FirstWithKey(h, nodeTable, links, i)
  {
    var all := links + [link];
    assert forall j | 0 <= j <= i :: all[j] == links[j];
  }

  lemma LastWithKeyExtend(h: Heap, nodeTable: map<string, Ref>, links: seq<LinkSnap>, link: LinkSnap, n: nat, i: nat)
    requires TableIn(nodeTable, h) && i < n <= |links|
    ensures LastWithKey(h, nodeTable, links + [link], n, i) <==> LastWithKey(h, nodeTable, links, n, i)
  {
    var all := links + [link];
    assert forall j | 0 <= j < n :: all[j] == links[j];
  }


  lemma LinkStepEnds(p: LinkPass, nodeTable: map<string, Ref>, links: seq<LinkSnap>, q: LinkPass, link: LinkSnap)
    requires LinkPassValid(q, nodeTable) && LinkPassValid(p, nodeTable)
    requires LinksEnds(p, nodeTable, links, q)
    ensures LinksEnds(p, nodeTable, links + [link], AddLink(q, nodeTable, link))
  {
    LinkStepTable(p, nodeTable, links, q, link);
    LinkStepObjectEnds(p, nodeTable, links, q, link);
  }

  /** The ends half of `LinkStepEnds`, once the table after the step is
      known: links that existed keep their ends and index, and the first
      link with a new key joins its two resolved nodes. */
  lemma LinkStepObjectEnds(p: LinkPass, nodeTable: map<string, Ref>, links: seq<LinkSnap>, q: LinkPass, link: LinkSnap)
    requires LinkPassValid(q, nodeTable) && LinkPassValid(p, nodeTable)
    requires LinksEnds(p, nodeTable, links, q)
    requires LinksTable(p, nodeTable, links + [link], AddLink(q, nodeTable, link))
    ensures LinkObjectEnds(p, nodeTable, links + [link], AddLink(q, nodeTable, link))
  {
    if !q.threw && Resolves(nodeTable, link) {
      PushedEnds(p, nodeTable, links, q, link);
    } else {
      StalledEnds(p, nodeTable, links, q, link);
    }
  }

  /** `LinkStepObjectEnds` when the step pushes a link. */
  lemma PushedEnds(p: LinkPass, nodeTable: map<string, Ref>, links: seq<LinkSnap>, q: LinkPass, link: LinkSnap)
    requires LinkPassValid(q, nodeTable) && LinkPassValid(p, nodeTable)
    requires LinksEnds(p, nodeTable, links, q)
    requires LinksProgress(nodeTable, links + [link], AddLink(q, nodeTable, link))
    requires !q.threw && Resolves(nodeTable, link)
    ensures LinkObjectEnds(p, nodeTable, links + [link], AddLink(q, nodeTable, link))
  {
    LinkStepEndsPush(p, nodeTable, links, q, link);
    AddLinkObjects(q, nodeTable, link);
  }

  /** `LinkStepObjectEnds` when the step pushes nothing: objects and pushed
      links are as they were, and a link past them changes no
      `FirstWithKey`. */
  lemma StalledEnds(p: LinkPass, nodeTable: map<string, Ref>, links: seq<LinkSnap>, q: LinkPass, link: LinkSnap)
    requires LinkPassValid(q, nodeTable) && LinkPassValid(p, nodeTable)
    requires LinksProgress(nodeTable, links, q) && LinkObjectEnds(p, nodeTable, links, q)
    requires LinksProgress(nodeTable, links + [link], AddLink(q, nodeTable, link))
    requires q.threw || !Resolves(nodeTable, link)
    ensures LinkObjectEnds(p, nodeTable, links + [link], AddLink(q, nodeTable, link))
  {
    AddLinkProgress(q, nodeTable, link);
    var r := AddLink(q, nodeTable, link);
    assert r.heap == q.heap && r.pushed == q.pushed;
    forall i | 0 <= i < |r.pushed|
      ensures (links + [link])[i] == links[i]
      ensures FirstWithKey(p.heap, nodeTable, links + [link], i) <==> FirstWithKey(p.heap, nodeTable, links, i)
    {
      FirstWithKeyExtend(p.heap, nodeTable, links, link, i);
    }
  }

  lemma LinkStepEndsPush(p: LinkPass, nodeTable: map<string, Ref>, links: seq<LinkSnap>, q: LinkPass, link: LinkSnap)
    requires LinkPassValid(q, nodeTable) && LinkPassValid(p, nodeTable)
    requires LinksEnds(p, nodeTable, links, q)
    requires !q.threw && Resolves(nodeTable, link)
    ensures var r := AddLink(q, nodeTable, link);
      forall i | 0 <= i < |r.pushed| && SnapKey(p.heap, nodeTable, (links + [link])[i]).value !in p.table && FirstWithKey(p.heap, nodeTable, links + [link], i) ::
        && r.pushed[i] !in p.heap.links
        && r.heap.links[r.pushed[i]].source == nodeTable[(links + [link])[i].source]
        && r.heap.links[r.pushed[i]].target == nodeTable[(links + [link])[i].target]
        && r.heap.links[r.pushed[i]].index == None
  {
    var r := AddLink(q, nodeTable, link);
    var all := links + [link];
    var n := |links|;
    AddLinkProgress(q, nodeTable, link);
    AddLinkTable(q, nodeTable, link);
    AddLinkObjects(q, nodeTable, link);
    assert |q.pushed| == n;
    forall i | 0 <= i < |r.pushed| && SnapKey(p.heap, nodeTable, all[i]).value !in p.table && FirstWithKey(p.heap, nodeTable, all, i)
      ensures r.pushed[i] !in p.heap.links
      ensures r.heap.links[r.pushed[i]].source == nodeTable[all[i].source]
      ensures r.heap.links[r.pushed[i]].target == nodeTable[all[i].target]
      ensures r.heap.links[r.pushed[i]].index == None
    {
      if i < n {
        assert all[i] == links[i];
        FirstWithKeyExtend(p.heap, nodeTable, links, link, i);
        assert r.pushed[i] == q.pushed[i];
      } else {
        assert all[n] == link;
        forall j | 0 <= j < n
          ensures SnapKey(p.heap, nodeTable, links[j]) != SnapKey(p.heap, nodeTable, link)
        {
          assert all[j] == links[j];
        }
        LinkStepNew(p, nodeTable, links, q, link);
      }
    }
  }

  /** A resolving link whose key neither the table nor an earlier link of the
      pass holds becomes a new object. */
  lemma LinkStepNew(p: LinkPass, nodeTable: map<string, Ref>, links: seq<LinkSnap>, q: LinkPass, link: LinkSnap)
    requires LinkPassValid(q, nodeTable) && LinkPassValid(p, nodeTable)
    requires LinksTable(p, nodeTable, links, q)
    requires !q.threw && Resolves(nodeTable, link)
    requires SnapKey(p.heap, nodeTable, link).value !in p.table
    requires forall j | 0 <= j < |links| :: SnapKey(p.heap, nodeTable, links[j]) != SnapKey(p.heap, nodeTable, link)
    ensures var r := AddLink(q, nodeTable, link);
      && |r.pushed| == |links| + 1
      && r.pushed[|links|] !in p.heap.links
      && r.pushed[|links|] in r.heap.links
      && r.heap.links[r.pushed[|links|]] == LinkObj(nodeTable[link.source], nodeTable[link.target], link, None)
  {
    var k := SnapKey(p.heap, nodeTable, link).value;
    assert k == LinkKey(q.heap, nodeTable[link.source], nodeTable[link.target]);
    assert k !in q.table;
  }


  lemma LinkStepPayload(p: LinkPass, nodeTable: map<string, Ref>, links: seq<LinkSnap>, q: LinkPass, link: LinkSnap)
    requires LinkPassValid(q, nodeTable) && LinkPassValid(p, nodeTable)
    requires LinksPayload(p, nodeTable, links, q)
    ensures LinksPayload(p, nodeTable, links + [link], AddLink(q, nodeTable, link))
  {
    LinkStepTable(p, nodeTable, links, q, link);
    LinkStepPayloads(p, nodeTable, links, q, link);
  }

  /** The payload half of `LinkStepPayload`, once the table after the step
      is known: every pushed link without a later pushed link of the same key
      carries its snapshot. */
  lemma LinkStepPayloads(p: LinkPass, nodeTable: map<string, Ref>, links: seq<LinkSnap>, q: LinkPass, link: LinkSnap)
    requires LinkPassValid(q, nodeTable) && LinkPassValid(p, nodeTable)
    requires LinksProgress(nodeTable, links, q) && LinkPayloads(p, nodeTable, links, q)
    requires LinksProgress(nodeTable, links + [link], AddLink(q, nodeTable, link))
    requires TableEntries(p, nodeTable, links + [link], AddLink(q, nodeTable, link))
    ensures LinkPayloads(p, nodeTable, links + [link], AddLink(q, nodeTable, link))
  {
    if !q.threw && Resolves(nodeTable, link) {
      PushedPayloads(p, nodeTable, links, q, link);
    } else {
      StalledPayloads(p, nodeTable, links, q, link);
    }
  }

  /** `LinkStepPayloads` when the step pushes a link: the new one carries its
      snapshot, and so does every earlier one without a later one of the same
      key. */
  lemma PushedPayloads(p: LinkPass, nodeTable: map<string, Ref>, links: seq<LinkSnap>, q: LinkPass, link: LinkSnap)
    requires LinkPassValid(q, nodeTable) && LinkPassValid(p, nodeTable)
    requires LinksProgress(nodeTable, links, q) && LinkPayloads(p, nodeTable, links, q)
    requires TableEntries(p, nodeTable, links + [link], AddLink(q, nodeTable, link))
    requires !q.threw && Resolves(nodeTable, link)
    ensures |AddLink(q, nodeTable, link).pushed| <= |links + [link]|
    ensures LinkPayloads(p, nodeTable, links + [link], AddLink(q, nodeTable, link))
  {
    AddLinkProgress(q, nodeTable, link);
    AddLinkObjects(q, nodeTable, link);
    var r := AddLink(q, nodeTable, link);
    var all := links + [link];
    var n := |links|;
    assert |q.pushed| == n;
    forall i | 0 <= i < |r.pushed| && LastWithKey(p.heap, nodeTable, all, |r.pushed|, i)
      ensures r.heap.links[r.pushed[i]].o == all[i]
    {
      if i < n {
        assert all[i] == links[i];
        PushedPayloadAt(p, nodeTable, links, q, link, i);
      }
    }
  }

  /** `LinkStepPayloads` when the step pushes nothing: the objects and the
      pushed links are as they were, and a later link past them changes no
      `LastWithKey`. */
  lemma StalledPayloads(p: LinkPass, nodeTable: map<string, Ref>, links: seq<LinkSnap>, q: LinkPass, link: LinkSnap)
    requires LinkPassValid(q, nodeTable) && LinkPassValid(p, nodeTable)
    requires LinksProgress(nodeTable, links, q) && LinkPayloads(p, nodeTable, links, q)
    requires q.threw || !Resolves(nodeTable, link)
    ensures |AddLink(q, nodeTable, link).pushed| <= |links + [link]|
    ensures LinkPayloads(p, nodeTable, links + [link], AddLink(q, nodeTable, link))
  {
    AddLinkProgress(q, nodeTable, link);
    var r := AddLink(q, nodeTable, link);
    var all := links + [link];
    assert r.heap == q.heap && r.pushed == q.pushed;
    forall i | 0 <= i < |r.pushed|
      ensures all[i] == links[i]
      ensures LastWithKey(p.heap, nodeTable, all, |r.pushed|, i) <==> LastWithKey(p.heap, nodeTable, links, |r.pushed|, i)
    {
      LastWithKeyExtend(p.heap, nodeTable, links, link, |r.pushed|, i);
    }
  }

  /** Link `i` of `LinkStepPayloads` when the step pushes: a later link with
      another key leaves its object, and so its snapshot, alone. */
  lemma PushedPayloadAt(p: LinkPass, nodeTable: map<string, Ref>, links: seq<LinkSnap>, q: LinkPass, link: LinkSnap, i: nat)
    requires LinkPassValid(q, nodeTable) && LinkPassValid(p, nodeTable)
    requires LinksProgress(nodeTable, links, q) && LinkPayloads(p, nodeTable, links, q)
    requires TableEntries(p, nodeTable, links + [link], AddLink(q, nodeTable, link))
    requires !q.threw && Resolves(nodeTable, link)
    requires i < |links| && LastWithKey(p.heap, nodeTable, links + [link], |links| + 1, i)
    ensures var r := AddLink(q, nodeTable, link);
      && i < |r.pushed|
      && r.pushed[i] in r.heap.links
      && r.heap.links[r.pushed[i]].o == links[i]
  {
    AddLinkProgress(q, nodeTable, link);
    AddLinkObjects(q, nodeTable, link);
    var r := AddLink(q, nodeTable, link);
    var all := links + [link];
    var n := |links|;
    assert |q.pushed| == n;
    assert r.pushed[..n] == q.pushed;
    assert all[i] == links[i];
    assert r.pushed[i] == q.pushed[i];
    assert SnapKey(p.heap, nodeTable, all[n]) != SnapKey(p.heap, nodeTable, all[i]);
    assert r.pushed[i] != r.pushed[n];
    LastWithKeyExtend(p.heap, nodeTable, links, link, n, i);
  }

  lemma {:induction false} AddLinksEnds(p: LinkPass, nodeTable: map<string, Ref>, links: seq<LinkSnap>)
    requires LinkPassValid(p, nodeTable) && !p.threw && p.pushed == []
    ensures TableIn(nodeTable, p.heap) && LinksEnds(p, nodeTable, links, AddLinks(p, nodeTable, links))
    decreases |links|
  {
    if |links| > 0 {
      var init := links[..|links| - 1];
      AddLinksEnds(p, nodeTable, init);
      assert links == init + [links[|links| - 1]];
      LinkStepEnds(p, nodeTable, init, AddLinks(p, nodeTable, init), links[|links| - 1]);
    }
  }

  lemma {:induction false} AddLinksPayload(p: LinkPass, nodeTable: map<string, Ref>, links: seq<LinkSnap>)
    requires LinkPassValid(p, nodeTable) && !p.threw && p.pushed == []
    ensures TableIn(nodeTable, p.heap) && LinksPayload(p, nodeTable, links, AddLinks(p, nodeTable, links))
    decreases |links|
  {
    if |links| > 0 {
      var init := links[..|links| - 1];
      AddLinksPayload(p, nodeTable, init);
      assert links == init + [links[|links| - 1]];
      LinkStepPayload(p, nodeTable, init, AddLinks(p, nodeTable, init), links[|links| - 1]);
    }
  }

  /** Two entries of the rebuilt `intLinks` are the same object exactly when
      their snapshot links have the same `linkId`. */
  lemma AddLinksIdentity(p: LinkPass, nodeTable: map<string, Ref>, links: seq<LinkSnap>)
    requires LinkPassValid(p, nodeTable) && !p.threw && p.pushed == []
    ensures var r := AddLinks(p, nodeTable, links);
      && TableIn(nodeTable, p.heap)
      && |r.pushed| <= |links|
      && (forall i, j | 0 <= i < |r.pushed| && 0 <= j < |r.pushed| ::
            r.pushed[i] == r.pushed[j] <==> SnapKey(p.heap, nodeTable, links[i]) == SnapKey(p.heap, nodeTable, links[j]))
  {
    AddLinksTable(p, nodeTable, links);
  }

  // ---------------------------------------------------------------------
  // Indexing by d3

  /** `force.nodes(refs)` leaves each object with the last position it has
      in `refs`. */
  lemma {:induction false} IndexNodesLast(h: Heap, refs: seq<Ref>, i: nat)
    requires forall j | 0 <= j < |refs| :: refs[j] in h.nodes
    requires i < |refs| && forall j | i < j < |refs| :: refs[j] != refs[i]
    ensures IndexNodes(h, refs).nodes[refs[i]].index == Some(i)
    decreases |refs|
  {
    if i < |refs| - 1 {
      var init := refs[..|refs| - 1];
      assert init[i] == refs[i];
      IndexNodesLast(h, init, i);
    }
  }

  /** `forceLink.links(refs)` leaves each link with the last position it has
      in `refs`. */
  lemma {:induction false} IndexLinksLast(h: Heap, refs: seq<Ref>, i: nat)
    requires forall j | 0 <= j < |refs| :: refs[j] in h.links
    requires i < |refs| && forall j | i < j < |refs| :: refs[j] != refs[i]
    ensures IndexLinks(h, refs).links[refs[i]].index == Some(i)
    decreases |refs|
  {
    if i < |refs| - 1 {
      var init := refs[..|refs| - 1];
      assert init[i] == refs[i];
      IndexLinksLast(h, init, i);
    }
  }

  /** Objects that are not in `refs` keep their index. */
  lemma {:induction false} IndexNodesOthers(h: Heap, refs: seq<Ref>, n: Ref)
    requires forall j | 0 <= j < |refs| :: refs[j] in h.nodes
    requires n in h.nodes && forall j | 0 <= j < |refs| :: refs[j] != n
    ensures IndexNodes(h, refs).nodes[n] == h.nodes[n]
    decreases |refs|
  {
    if |refs| > 0 {
      IndexNodesOthers(h, refs[..|refs| - 1], n);
    }
  }
}
