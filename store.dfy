/** The graph store rebuilt by `updateGraph`: the internal node and link
    objects, the lookup tables that decide which of them are reused, and the
    whole reconciliation as a function of the previous store and a snapshot.

    JavaScript objects are kept in a heap: a `Ref` names an object, the maps
    of `Heap` hold each object's current fields, and `next` is the first name
    never handed out. Reusing an object keeps its `Ref`; a new object gets a
    fresh one. */
module Store {
  import opened Basics
  import opened Text
  import opened Geometry

  type Ref = nat

  /** A node of the server's snapshot: its MAC address and geographic position. */
  datatype NodeSnap = NodeSnap(mac: string, x: real, y: real)

  /** A link of the server's snapshot: the keys of its two end nodes. */
  datatype LinkSnap = LinkSnap(source: string, target: string)

  /** An internal node: simulated position, latest snapshot `o`, and the index
      d3 gave it (none before the simulation has seen it). */
  datatype NodeObj = NodeObj(x: real, y: real, o: NodeSnap, index: Option<nat>)

  /** An internal link: references to its end nodes, latest snapshot `o`, and
      the index d3 gave it. */
  datatype LinkObj = LinkObj(source: Ref, target: Ref, o: LinkSnap, index: Option<nat>)

  datatype Heap = Heap(nodes: map<Ref, NodeObj>, links: map<Ref, LinkObj>, next: Ref)

  /** Every object has a name below `next`, and links point at nodes. */
  predicate HeapValid(h: Heap)
  {
    && (forall r | r in h.nodes :: r < h.next)
    && (forall r | r in h.links :: r < h.next && h.links[r].source in h.nodes && h.links[r].target in h.nodes)
  }

  /** `intNodes` and `intLinks` over the heap that holds their objects. */
  datatype Store = Store(heap: Heap, intNodes: seq<Ref>, intLinks: seq<Ref>)

  predicate StoreValid(st: Store)
  {
    && HeapValid(st.heap)
    && (forall i | 0 <= i < |st.intNodes| :: st.intNodes[i] in st.heap.nodes)
    && (forall i | 0 <= i < |st.intLinks| :: st.intLinks[i] in st.heap.links)
  }

  /** `linkId`: the two MACs in string order, joined by `=>`. */
  function LinkId(smac: string, tmac: string): (id: string)
    ensures || (id == smac + "=>" + tmac && !LexLess(tmac, smac))
            || (id == tmac + "=>" + smac && !LexLess(smac, tmac))
  {
    if LexLess(tmac, smac) then LexLessAsymmetric(tmac, smac); tmac + "=>" + smac else smac + "=>" + tmac
  }

  /** The key JavaScript makes of `n.index`: its decimal numeral, or
      `"undefined"` when d3 has not indexed the node yet. */
  function IndexKey(index: Option<nat>): (k: string)
    ensures IsNumeral(k) <==> index.Some?
  {
    match index
    case Some(i) => DecimalStringIsNumeral(i); DecimalString(i)
    case None => assert "undefined"[0] == 'u'; "undefined"
  }

  /** `nodeId` as written keys the table by `index`; the commented-out
      alternative keys it by MAC. */
  datatype NodeKeying = ByIndex | ByMac

  function NodeKey(n: NodeObj, keying: NodeKeying): (k: string)
    ensures keying.ByIndex? ==> (IsNumeral(k) <==> n.index.Some?)
    ensures keying.ByMac? ==> k == n.o.mac
  {
    match keying
    case ByIndex => IndexKey(n.index)
    case ByMac => n.o.mac
  }

  /** `linkId(l.source, l.target)` for a link from `s` to `t`. */
  function LinkKey(h: Heap, s: Ref, t: Ref): string
    requires s in h.nodes && t in h.nodes
  {
    LinkId(h.nodes[s].o.mac, h.nodes[t].o.mac)
  }

  /** No two keys of a table lead to the same object. */
  predicate Injective(t: map<string, Ref>)
  {
    forall k1, k2 | k1 in t && k2 in t && t[k1] == t[k2] :: k1 == k2
  }

  /** `nodeDict` after the loop over the previous `intNodes`: each node under
      its `nodeId`, a later node replacing an earlier one with the same key. */
  function NodeTable(h: Heap, refs: seq<Ref>, keying: NodeKeying): (t: map<string, Ref>)
    requires forall i | 0 <= i < |refs| :: refs[i] in h.nodes
    ensures forall k | k in t :: t[k] in refs && NodeKey(h.nodes[t[k]], keying) == k
    ensures forall i | 0 <= i < |refs| :: NodeKey(h.nodes[refs[i]], keying) in t
    decreases |refs|
  {
    if |refs| == 0 then map[]
    else
      var last := refs[|refs| - 1];
      NodeTable(h, refs[..|refs| - 1], keying)[NodeKey(h.nodes[last], keying) := last]
  }

  /** `linkDict` after the loop over the previous `intLinks`. */
  function LinkTable(h: Heap, refs: seq<Ref>): (t: map<string, Ref>)
    requires HeapValid(h)
    requires forall i | 0 <= i < |refs| :: refs[i] in h.links
    ensures forall k | k in t :: t[k] in refs && LinkKey(h, h.links[t[k]].source, h.links[t[k]].target) == k
    ensures forall i | 0 <= i < |refs| :: LinkKey(h, h.links[refs[i]].source, h.links[refs[i]].target) in t
    decreases |refs|
  {
    if |refs| == 0 then map[]
    else
      var last := refs[|refs| - 1];
      LinkTable(h, refs[..|refs| - 1])[LinkKey(h, h.links[last].source, h.links[last].target) := last]
  }

  function SumX(nodes: seq<NodeSnap>): real
    decreases |nodes|
  {
    if |nodes| == 0 then 0.0 else SumX(nodes[..|nodes| - 1]) + nodes[|nodes| - 1].x
  }

  function SumY(nodes: seq<NodeSnap>): real
    decreases |nodes|
  {
    if |nodes| == 0 then 0.0 else SumY(nodes[..|nodes| - 1]) + nodes[|nodes| - 1].y
  }

  /** `(px, py)`: the last click minus the centroid of the snapshot. For an
      empty snapshot JavaScript computes NaN here; no node is created then, so
      the value stands for nothing. */
  function Offset(lastClick: Point, nodes: seq<NodeSnap>): (off: Point)
    ensures |nodes| > 0 ==>
      && SumX(nodes) / (|nodes| as real) + off.x == lastClick.x
      && SumY(nodes) / (|nodes| as real) + off.y == lastClick.y
  {
    if |nodes| == 0 then Point(0.0, 0.0)
    else Point(lastClick.x - SumX(nodes) / (|nodes| as real), lastClick.y - SumY(nodes) / (|nodes| as real))
  }

  /** The state `addNode` works on: objects, `nodeDict`, and `intNodes` so far. */
  datatype NodePass = NodePass(heap: Heap, table: map<string, Ref>, pushed: seq<Ref>)

  predicate NodePassValid(p: NodePass)
  {
    && HeapValid(p.heap)
    && (forall k | k in p.table :: p.table[k] in p.heap.nodes)
    && Injective(p.table)
    && (forall i | 0 <= i < |p.pushed| :: p.pushed[i] in p.heap.nodes)
  }

  /** `addNode(node)`: the object under `node.mac` gets the snapshot as its `o`;
      without one, a new object is placed at the snapshot's position shifted by
      `offset` and entered under `node.mac`. Either way it is pushed. */
  function AddNode(p: NodePass, node: NodeSnap, offset: Point): (r: NodePass)
    requires NodePassValid(p)
    ensures NodePassValid(r)
  {
    if node.mac in p.table then
      var n := p.table[node.mac];
      NodePass(p.heap.(nodes := p.heap.nodes[n := p.heap.nodes[n].(o := node)]), p.table, p.pushed + [n])
    else
      var n := p.heap.next;
      var obj := NodeObj(node.x + offset.x, node.y + offset.y, node, None);
      NodePass(Heap(p.heap.nodes[n := obj], p.heap.links, n + 1), p.table[node.mac := n], p.pushed + [n])
  }

  /** `nodes.map(addNode)`. */
  function AddNodes(p: NodePass, nodes: seq<NodeSnap>, offset: Point): (r: NodePass)
    requires NodePassValid(p)
    ensures NodePassValid(r)
    ensures r.heap.links == p.heap.links
    ensures p.heap.next <= r.heap.next
    ensures forall n | n in p.heap.nodes :: n in r.heap.nodes
    decreases |nodes|
  {
    if |nodes| == 0 then p
    else AddNode(AddNodes(p, nodes[..|nodes| - 1], offset), nodes[|nodes| - 1], offset)
  }

  /** The state `addLink` works on: objects, `linkDict`, `intLinks` so far, and
      whether a `TypeError` has ended the update. */
  datatype LinkPass = LinkPass(heap: Heap, table: map<string, Ref>, pushed: seq<Ref>, threw: bool)

  predicate LinkPassValid(p: LinkPass, nodeTable: map<string, Ref>)
  {
    && HeapValid(p.heap)
    && (forall k | k in nodeTable :: nodeTable[k] in p.heap.nodes)
    && (forall k | k in p.table :: p.table[k] in p.heap.links)
    && Injective(p.table)
    && (forall i | 0 <= i < |p.pushed| :: p.pushed[i] in p.heap.links)
  }

  /** Both end keys of the link name an entry of `nodeDict`. */
  predicate Resolves(nodeTable: map<string, Ref>, link: LinkSnap)
  {
    link.source in nodeTable && link.target in nodeTable
  }

  /** `addLink(link)`. An end key missing from `nodeDict` makes `linkId` read a
      field of `undefined`, which throws. Otherwise the link under the ends'
      `linkId` gets the snapshot as its `o`; without one, a new link between
      the two node objects is entered under that key. Either way it is pushed. */
  function AddLink(p: LinkPass, nodeTable: map<string, Ref>, link: LinkSnap): (r: LinkPass)
    requires LinkPassValid(p, nodeTable)
    ensures LinkPassValid(r, nodeTable)
  {
    if p.threw then p
    else if !Resolves(nodeTable, link) then p.(threw := true)
    else
      var s, t := nodeTable[link.source], nodeTable[link.target];
      var id := LinkKey(p.heap, s, t);
      if id in p.table then
        var l := p.table[id];
        LinkPass(p.heap.(links := p.heap.links[l := p.heap.links[l].(o := link)]), p.table, p.pushed + [l], false)
      else
        var l := p.heap.next;
        LinkPass(Heap(p.heap.nodes, p.heap.links[l := LinkObj(s, t, link, None)], l + 1), p.table[id := l], p.pushed + [l], false)
  }

  /** `links.map(addLink)`, up to the first link that throws. */
  function AddLinks(p: LinkPass, nodeTable: map<string, Ref>, links: seq<LinkSnap>): (r: LinkPass)
    requires LinkPassValid(p, nodeTable)
    ensures LinkPassValid(r, nodeTable)
    ensures r.heap.nodes == p.heap.nodes
    decreases |links|
  {
    if |links| == 0 then p
    else AddLink(AddLinks(p, nodeTable, links[..|links| - 1]), nodeTable, links[|links| - 1])
  }

  /** `force.nodes(intNodes)`: d3 sets each node's `index` to its position, a
      later position overwriting an earlier one. */
  function IndexNodes(h: Heap, refs: seq<Ref>): (r: Heap)
    requires forall i | 0 <= i < |refs| :: refs[i] in h.nodes
    ensures r.nodes.Keys == h.nodes.Keys && r.links == h.links && r.next == h.next
    ensures forall n | n in h.nodes :: r.nodes[n] == h.nodes[n].(index := r.nodes[n].index)
    ensures HeapValid(h) ==> HeapValid(r)
    decreases |refs|
  {
    if |refs| == 0 then h
    else
      var g := IndexNodes(h, refs[..|refs| - 1]);
      var n := refs[|refs| - 1];
      g.(nodes := g.nodes[n := g.nodes[n].(index := Some(|refs| - 1))])
  }

  /** `forceLink.links(intLinks)`: the same for links. */
  function IndexLinks(h: Heap, refs: seq<Ref>): (r: Heap)
    requires forall i | 0 <= i < |refs| :: refs[i] in h.links
    ensures r.links.Keys == h.links.Keys && r.nodes == h.nodes && r.next == h.next
    ensures forall l | l in h.links :: r.links[l] == h.links[l].(index := r.links[l].index)
    ensures HeapValid(h) ==> HeapValid(r)
    decreases |refs|
  {
    if |refs| == 0 then h
    else
      var g := IndexLinks(h, refs[..|refs| - 1]);
      var l := refs[|refs| - 1];
      g.(links := g.links[l := g.links[l].(index := Some(|refs| - 1))])
  }

  /** The tables `updateGraph` starts from: the previous objects when
      `is_update` is set, nothing otherwise. */
  function InitialNodeTable(st: Store, isUpdate: bool, keying: NodeKeying): (t: map<string, Ref>)
    requires StoreValid(st)
    ensures forall k | k in t :: t[k] in st.heap.nodes && NodeKey(st.heap.nodes[t[k]], keying) == k
  {
    if isUpdate then NodeTable(st.heap, st.intNodes, keying) else map[]
  }

  function InitialLinkTable(st: Store, isUpdate: bool): (t: map<string, Ref>)
    requires StoreValid(st)
    ensures forall k | k in t :: t[k] in st.heap.links
  {
    if isUpdate then LinkTable(st.heap, st.intLinks) else map[]
  }

  lemma KeyedInjective(h: Heap, t: map<string, Ref>, keying: NodeKeying)
    requires forall k | k in t :: t[k] in h.nodes && NodeKey(h.nodes[t[k]], keying) == k
    ensures Injective(t)
  {
  }

  lemma LinkKeyedInjective(h: Heap, t: map<string, Ref>)
    requires forall k | k in t :: t[k] in h.links
    requires forall k | k in t :: h.links[t[k]].source in h.nodes && h.links[t[k]].target in h.nodes
    requires forall k | k in t :: LinkKey(h, h.links[t[k]].source, h.links[t[k]].target) == k
    ensures Injective(t)
  {
  }

  /** The node pass of `updateGraph`: `intNodes` emptied, then `addNode` for
      every snapshot node. */
  function NodePhase(st: Store, nodes: seq<NodeSnap>, isUpdate: bool, lastClick: Point, keying: NodeKeying): (r: NodePass)
    requires StoreValid(st)
    ensures NodePassValid(r)
    ensures r.heap.links == st.heap.links
    ensures forall n | n in st.heap.nodes :: n in r.heap.nodes
  {
    var t := InitialNodeTable(st, isUpdate, keying);
    KeyedInjective(st.heap, t, keying);
    AddNodes(NodePass(st.heap, t, []), nodes, Offset(lastClick, nodes))
  }

  /** The link pass, over the objects and the `nodeDict` the node pass left. */
  function LinkPhase(st: Store, np: NodePass, links: seq<LinkSnap>, isUpdate: bool): (r: LinkPass)
    requires StoreValid(st) && NodePassValid(np)
    requires np.heap.links == st.heap.links
    requires forall n | n in st.heap.nodes :: n in np.heap.nodes
    ensures LinkPassValid(r, np.table)
    ensures r.heap.nodes == np.heap.nodes
  {
    var t := InitialLinkTable(st, isUpdate);
    LinkKeyedInjective(st.heap, t);
    AddLinks(LinkPass(np.heap, t, [], false), np.table, links)
  }

  /** The result of `updateGraph`: the new store and whether it threw. */
  datatype Outcome = Outcome(store: Store, threw: bool)

  /** `updateGraph(nodes, links, is_update)` with the last click at
      `lastClick`. When a link throws, the store is left as the JavaScript
      leaves it: `intNodes` already rebuilt, `intLinks` holding the links
      before the bad one, nothing indexed. Otherwise d3 indexes both lists. */
  function Reconcile(st: Store, nodes: seq<NodeSnap>, links: seq<LinkSnap>, isUpdate: bool,
                     lastClick: Point, keying: NodeKeying): (out: Outcome)
    requires StoreValid(st)
    ensures StoreValid(out.store)
  {
    var np := NodePhase(st, nodes, isUpdate, lastClick, keying);
    var lp := LinkPhase(st, np, links, isUpdate);
    if lp.threw then Outcome(Store(lp.heap, np.pushed, lp.pushed), true)
    else Outcome(Store(IndexLinks(IndexNodes(lp.heap, np.pushed), lp.pushed), np.pushed, lp.pushed), false)
  }
}
