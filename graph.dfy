/** The graph object of `createGraph`: the fields `intNodes`, `intLinks`,
    `lastClick` and `animationEnabled`, and the operations that change them or
    read them. The objects the two lists refer to live in `heap`. */
module GraphView {
  import opened Basics
  import opened Geometry
  import opened Store
  import opened StoreProps
  import Selection

  /** What `toggleAnimation` asks of the simulation. */
  datatype SimCommand = Stop | Restart

  /** What a click on the canvas selects. */
  datatype ClickResult = Prevented | NodeClicked(node: Ref) | LinkClicked(link: Ref) | Missed

  function Position(h: Heap, n: Ref): Point
    requires n in h.nodes
  {
    Point(h.nodes[n].x, h.nodes[n].y)
  }

  /** The links as the click test sees them: from the position of the source
      node to that of the target node. */
  function Segments(h: Heap, refs: seq<Ref>): (s: seq<(Point, Point)>)
    requires HeapValid(h) && forall i | 0 <= i < |refs| :: refs[i] in h.links
    ensures |s| == |refs|
  {
    seq(|refs|, i requires 0 <= i < |refs| => (Position(h, h.links[refs[i]].source), Position(h, h.links[refs[i]].target)))
  }

  /** Every node object has a d3 index. */
  predicate NodesIndexed(h: Heap, refs: seq<Ref>)
  {
    forall i | 0 <= i < |refs| :: refs[i] in h.nodes && h.nodes[refs[i]].index.Some?
  }

  /** Every link object and both of its end nodes have a d3 index. */
  predicate LinksIndexed(h: Heap, refs: seq<Ref>)
  {
    forall i | 0 <= i < |refs| ::
      && refs[i] in h.links
      && h.links[refs[i]].index.Some?
      && h.links[refs[i]].source in h.nodes && h.nodes[h.links[refs[i]].source].index.Some?
      && h.links[refs[i]].target in h.nodes && h.nodes[h.links[refs[i]].target].index.Some?
  }

  /** `n.index` of every node. */
  function NodeIndices(h: Heap, refs: seq<Ref>): (s: seq<nat>)
    requires NodesIndexed(h, refs)
    ensures |s| == |refs|
  {
    seq(|refs|, i requires 0 <= i < |refs| => h.nodes[refs[i]].index.value)
  }

  /** `l.index`, `l.source.index` and `l.target.index` of every link. */
  function LinkEdges(h: Heap, refs: seq<Ref>): (s: seq<Selection.Edge>)
    requires LinksIndexed(h, refs)
    ensures |s| == |refs|
  {
    seq(|refs|, i requires 0 <= i < |refs| =>
      var l := h.links[refs[i]];
      Selection.Edge(l.index.value, h.nodes[l.source].index.value, h.nodes[l.target].index.value))
  }

  /** One more snapshot node for the node pass. */
  lemma AddNodesStep(p: NodePass, nodes: seq<NodeSnap>, i: nat, offset: Point)
    requires NodePassValid(p) && i < |nodes|
    ensures AddNodes(p, nodes[..i + 1], offset) == AddNode(AddNodes(p, nodes[..i], offset), nodes[i], offset)
  {
    assert nodes[..i + 1][..i] == nodes[..i];
  }

  /** One more snapshot link for the link pass. */
  lemma AddLinksStep(p: LinkPass, nodeTable: map<string, Ref>, links: seq<LinkSnap>, i: nat)
    requires LinkPassValid(p, nodeTable) && i < |links|
    ensures AddLinks(p, nodeTable, links[..i + 1]) == AddLink(AddLinks(p, nodeTable, links[..i]), nodeTable, links[i])
  {
    assert links[..i + 1][..i] == links[..i];
  }

  lemma IndexNodesStep(h: Heap, refs: seq<Ref>, i: nat)
    requires i < |refs| && forall j | 0 <= j < |refs| :: refs[j] in h.nodes
    ensures IndexNodes(h, refs[..i + 1]) ==
      var g := IndexNodes(h, refs[..i]);
      g.(nodes := g.nodes[refs[i] := g.nodes[refs[i]].(index := Some(i))])
  {
    assert refs[..i + 1][..i] == refs[..i];
  }

  lemma IndexLinksStep(h: Heap, refs: seq<Ref>, i: nat)
    requires i < |refs| && forall j | 0 <= j < |refs| :: refs[j] in h.links
    ensures IndexLinks(h, refs[..i + 1]) ==
      var g := IndexLinks(h, refs[..i]);
      g.(links := g.links[refs[i] := g.links[refs[i]].(index := Some(i))])
  {
    assert refs[..i + 1][..i] == refs[..i];
  }

  /** The body of `updateGraph` on the previous store `st`: the tables
      filled, the two lists rebuilt, and, unless a link threw, both lists
      numbered by d3. */
  method Update(st: Store, nodes: seq<NodeSnap>, links: seq<LinkSnap>, isUpdate: bool,
                lastClick: Point, keying: NodeKeying) returns (out: Outcome)
    requires StoreValid(st)
    ensures out == Reconcile(st, nodes, links, isUpdate, lastClick, keying)
  {
    var nodeDict, linkDict := NodeDicts(st, isUpdate, keying);
    var offset := CenterOffset(lastClick, nodes);
    KeyedInjective(st.heap, nodeDict, keying);
    var h, intNodes;
    h, nodeDict, intNodes := AddNodesLoop(st.heap, nodeDict, nodes, offset);
    ghost var np := NodePhase(st, nodes, isUpdate, lastClick, keying);
    assert NodePass(h, nodeDict, intNodes) == np;
    LinkKeyedInjective(st.heap, linkDict);
    var intLinks, threw;
    h, linkDict, intLinks, threw := AddLinksLoop(h, nodeDict, linkDict, links);
    ghost var lp := LinkPhase(st, np, links, isUpdate);
    assert LinkPass(h, linkDict, intLinks, threw) == lp;
    if !threw {
      h := IndexLoop(h, intNodes, intLinks);
    }
    out := Outcome(Store(h, intNodes, intLinks), threw);
  }

  /** The `nodeDict` and `linkDict` of the first lines of `updateGraph`:
      the previous objects under their keys when `isUpdate` is set. */
  method NodeDicts(st: Store, isUpdate: bool, keying: NodeKeying) returns (nodeDict: map<string, Ref>, linkDict: map<string, Ref>)
    requires StoreValid(st)
    ensures nodeDict == InitialNodeTable(st, isUpdate, keying)
    ensures linkDict == InitialLinkTable(st, isUpdate)
  {
    nodeDict, linkDict := map[], map[];
    if isUpdate {
      nodeDict := NodeTableLoop(st.heap, st.intNodes, keying);
      linkDict := LinkTableLoop(st.heap, st.intLinks);
    }
  }

  /** `intNodes.forEach(...)`: each previous node filed under its key, a
      later one replacing an earlier one under the same key. */
  method NodeTableLoop(h: Heap, refs: seq<Ref>, keying: NodeKeying) returns (t: map<string, Ref>)
    requires forall i | 0 <= i < |refs| :: refs[i] in h.nodes
    ensures t == NodeTable(h, refs, keying)
  {
    t := map[];
    for i := 0 to |refs|
      invariant t == NodeTable(h, refs[..i], keying)
    {
      assert refs[..i + 1][..i] == refs[..i];
      t := t[NodeKey(h.nodes[refs[i]], keying) := refs[i]];
    }
    assert refs[..|refs|] == refs;
  }

  /** `intLinks.forEach(...)`: each previous link filed under the id of its
      two ends. */
  method LinkTableLoop(h: Heap, refs: seq<Ref>) returns (t: map<string, Ref>)
    requires HeapValid(h)
    requires forall i | 0 <= i < |refs| :: refs[i] in h.links
    ensures t == LinkTable(h, refs)
  {
    t := map[];
    for i := 0 to |refs|
      invariant t == LinkTable(h, refs[..i])
    {
      assert refs[..i + 1][..i] == refs[..i];
      var l := h.links[refs[i]];
      t := t[LinkKey(h, l.source, l.target) := refs[i]];
    }
    assert refs[..|refs|] == refs;
  }

  /** `(px, py)`: the last click minus the mean snapshot position. */
  method CenterOffset(lastClick: Point, nodes: seq<NodeSnap>) returns (offset: Point)
    ensures offset == Offset(lastClick, nodes)
  {
    var sx, sy := 0.0, 0.0;
    for i := 0 to |nodes|
      invariant sx == SumX(nodes[..i]) && sy == SumY(nodes[..i])
    {
      assert nodes[..i + 1][..i] == nodes[..i];
      sx, sy := sx + nodes[i].x, sy + nodes[i].y;
    }
    assert nodes[..|nodes|] == nodes;
    if |nodes| == 0 {
      offset := Point(0.0, 0.0);
    } else {
      offset := Point(lastClick.x - sx / (|nodes| as real), lastClick.y - sy / (|nodes| as real));
    }
  }

  /** `nodes.map(addNode)` onto an emptied `intNodes`. */
  method AddNodesLoop(h0: Heap, nodeDict0: map<string, Ref>, nodes: seq<NodeSnap>, offset: Point)
    returns (h: Heap, nodeDict: map<string, Ref>, intNodes: seq<Ref>)
    requires NodePassValid(NodePass(h0, nodeDict0, []))
    ensures NodePass(h, nodeDict, intNodes) == AddNodes(NodePass(h0, nodeDict0, []), nodes, offset)
  {
    ghost var p0 := NodePass(h0, nodeDict0, []);
    h, nodeDict, intNodes := h0, nodeDict0, [];
    for i := 0 to |nodes|
      invariant NodePass(h, nodeDict, intNodes) == AddNodes(p0, nodes[..i], offset)
    {
      AddNodesStep(p0, nodes, i, offset);
      h, nodeDict, intNodes := AddOneNode(h, nodeDict, intNodes, nodes[i], offset);
    }
    assert nodes[..|nodes|] == nodes;
  }

  /** `addNode(node)`: the object `nodeDict` holds under the MAC gets the
      snapshot, or a new object is placed and filed; either is pushed. */
  method AddOneNode(h0: Heap, nodeDict0: map<string, Ref>, intNodes0: seq<Ref>, node: NodeSnap, offset: Point)
    returns (h: Heap, nodeDict: map<string, Ref>, intNodes: seq<Ref>)
    requires NodePassValid(NodePass(h0, nodeDict0, intNodes0))
    ensures NodePass(h, nodeDict, intNodes) == AddNode(NodePass(h0, nodeDict0, intNodes0), node, offset)
  {
    if node.mac in nodeDict0 {
      var n := nodeDict0[node.mac];
      h := h0.(nodes := h0.nodes[n := h0.nodes[n].(o := node)]);
      nodeDict, intNodes := nodeDict0, intNodes0 + [n];
    } else {
      var n := h0.next;
      h := Heap(h0.nodes[n := NodeObj(node.x + offset.x, node.y + offset.y, node, None)], h0.links, n + 1);
      nodeDict, intNodes := nodeDict0[node.mac := n], intNodes0 + [n];
    }
  }

  /** `links.map(addLink)` onto an emptied `intLinks`; it stops with
      `threw` at the first link whose ends do not both resolve, `intLinks`
      holding the links before it. */
  method AddLinksLoop(h0: Heap, nodeDict: map<string, Ref>, linkDict0: map<string, Ref>, links: seq<LinkSnap>)
    returns (h: Heap, linkDict: map<string, Ref>, intLinks: seq<Ref>, threw: bool)
    requires LinkPassValid(LinkPass(h0, linkDict0, [], false), nodeDict)
    ensures LinkPass(h, linkDict, intLinks, threw) == AddLinks(LinkPass(h0, linkDict0, [], false), nodeDict, links)
  {
    ghost var q0 := LinkPass(h0, linkDict0, [], false);
    h, linkDict, intLinks, threw := h0, linkDict0, [], false;
    for i := 0 to |links|
      invariant LinkPass(h, linkDict, intLinks, false) == AddLinks(q0, nodeDict, links[..i])
    {
      AddLinksStep(q0, nodeDict, links, i);
      if !(links[i].source in nodeDict && links[i].target in nodeDict) {
        assert AddLinks(q0, nodeDict, links[..i + 1]) == LinkPass(h, linkDict, intLinks, true);
        AddLinksAfterThrow(q0, nodeDict, links, i + 1);
        return h, linkDict, intLinks, true;
      }
      h, linkDict, intLinks := AddOneLink(h, nodeDict, linkDict, intLinks, links[i]);
    }
    assert links[..|links|] == links;
  }

  /** `addLink(link)` for a link whose two ends `nodeDict` resolves: the
      link object filed under their `linkId` gets the snapshot, or a new one
      joining the two node objects is made and filed; either is pushed. */
  method AddOneLink(h0: Heap, nodeDict: map<string, Ref>, linkDict0: map<string, Ref>, intLinks0: seq<Ref>, link: LinkSnap)
    returns (h: Heap, linkDict: map<string, Ref>, intLinks: seq<Ref>)
    requires LinkPassValid(LinkPass(h0, linkDict0, intLinks0, false), nodeDict)
    requires link.source in nodeDict && link.target in nodeDict
    ensures LinkPass(h, linkDict, intLinks, false) == AddLink(LinkPass(h0, linkDict0, intLinks0, false), nodeDict, link)
  {
    var source, target := nodeDict[link.source], nodeDict[link.target];
    var id := LinkKey(h0, source, target);
    if id in linkDict0 {
      var l := linkDict0[id];
      h := h0.(links := h0.links[l := h0.links[l].(o := link)]);
      linkDict, intLinks := linkDict0, intLinks0 + [l];
    } else {
      var l := h0.next;
      h := Heap(h0.nodes, h0.links[l := LinkObj(source, target, link, None)], l + 1);
      linkDict, intLinks := linkDict0[id := l], intLinks0 + [l];
    }
  }

  /** `force.nodes(intNodes)` and `forceLink.links(intLinks)`: d3 numbers
      both lists. */
  method IndexLoop(h0: Heap, intNodes: seq<Ref>, intLinks: seq<Ref>) returns (h: Heap)
    requires forall i | 0 <= i < |intNodes| :: intNodes[i] in h0.nodes
    requires forall i | 0 <= i < |intLinks| :: intLinks[i] in h0.links
    ensures h == IndexLinks(IndexNodes(h0, intNodes), intLinks)
  {
    h := IndexNodesLoop(h0, intNodes);
    h := IndexLinksLoop(h, intLinks);
  }

  /** `force.nodes(intNodes)`: node `i` gets index `i`. */
  method IndexNodesLoop(h0: Heap, refs: seq<Ref>) returns (h: Heap)
    requires forall i | 0 <= i < |refs| :: refs[i] in h0.nodes
    ensures h == IndexNodes(h0, refs)
  {
    h := h0;
    for i := 0 to |refs|
      invariant h == IndexNodes(h0, refs[..i])
    {
      IndexNodesStep(h0, refs, i);
      h := h.(nodes := h.nodes[refs[i] := h.nodes[refs[i]].(index := Some(i))]);
    }
    assert refs[..|refs|] == refs;
  }

  /** `forceLink.links(intLinks)`: link `i` gets index `i`. */
  method IndexLinksLoop(h0: Heap, refs: seq<Ref>) returns (h: Heap)
    requires forall i | 0 <= i < |refs| :: refs[i] in h0.links
    ensures h == IndexLinks(h0, refs)
  {
    h := h0;
    for i := 0 to |refs|
      invariant h == IndexLinks(h0, refs[..i])
    {
      IndexLinksStep(h0, refs, i);
      h := h.(links := h.links[refs[i] := h.links[refs[i]].(index := Some(i))]);
    }
    assert refs[..|refs|] == refs;
  }

  class Graph {
    var heap: Heap
    var intNodes: seq<Ref>
    var intLinks: seq<Ref>
    var lastClick: Point
    var animationEnabled: bool
    /** How the node table is keyed: `ByIndex` as `nodeId` is written. */
    const keying: NodeKeying
    /** How a click measures a link: `AsWritten` as `distanceLink` is. */
    const measure: Measure

    function Current(): Store
      reads this
    {
      Store(heap, intNodes, intLinks)
    }

    predicate Valid()
      reads this
    {
      StoreValid(Current())
    }

    /** A graph with no nodes and no links, the last click at the origin and
        the animation on. */
    constructor(keying: NodeKeying, measure: Measure)
      ensures Valid()
      ensures this.keying == keying && this.measure == measure
      ensures Current() == Store(Heap(map[], map[], 0), [], [])
      ensures lastClick == Point(0.0, 0.0) && animationEnabled
    {
      heap := Heap(map[], map[], 0);
      intNodes := [];
      intLinks := [];
      lastClick := Point(0.0, 0.0);
      animationEnabled := true;
      this.keying := keying;
      this.measure := measure;
    }

    /** `updateGraph(nodes, links, is_update)`: the store becomes what
        `Reconcile` makes of it, and `threw` tells whether a link end did not
        resolve. */
    method UpdateGraph(nodes: seq<NodeSnap>, links: seq<LinkSnap>, isUpdate: bool) returns (threw: bool)
      requires Valid()
      modifies this
      ensures Valid()
      ensures Outcome(Current(), threw) == Reconcile(old(Current()), nodes, links, isUpdate, old(lastClick), keying)
      ensures lastClick == old(lastClick) && animationEnabled == old(animationEnabled)
    {
      var out := Update(Current(), nodes, links, isUpdate, lastClick, keying);
      heap, intNodes, intLinks := out.store.heap, out.store.intNodes, out.store.intLinks;
      threw := out.threw;
    }

    /** `onClick`, after the click `e` has been mapped into graph coordinates
        and `force.find` has answered `found`. Unless the event was already
        handled, the click is remembered; a node found wins; otherwise the
        link the scan picks, if any, is selected. */
    method OnClick(prevented: bool, e: Point, found: Option<Ref>) returns (r: ClickResult)
      requires Valid()
      modifies this
      ensures Current() == old(Current()) && animationEnabled == old(animationEnabled)
      ensures prevented ==> r == Prevented && lastClick == old(lastClick)
      ensures !prevented ==> lastClick == e
      ensures !prevented && found.Some? ==> r == NodeClicked(found.value)
      ensures !prevented && found.None? ==>
        && (r.Missed? || r.LinkClicked?)
        && (r.Missed? ==> PicksNearest(e, Segments(heap, intLinks), measure, None))
        && (r.LinkClicked? ==> exists i | 0 <= i < |intLinks| ::
              intLinks[i] == r.link && PicksNearest(e, Segments(heap, intLinks), measure, Some(i)))
    {
      if prevented {
        return Prevented;
      }
      lastClick := e;
      if found.Some? {
        return NodeClicked(found.value);
      }
      var closest := NearestLink(e, Segments(heap, intLinks), measure);
      if closest.Some? {
        r := LinkClicked(intLinks[closest.value]);
      } else {
        r := Missed;
      }
    }

    /** `toggleAnimation`: stop a running simulation or restart a stopped
        one, and flip the flag. */
    method ToggleAnimation() returns (cmd: SimCommand)
      modifies this
      ensures animationEnabled == !old(animationEnabled)
      ensures old(animationEnabled) ==> cmd == Stop
      ensures !old(animationEnabled) ==> cmd == Restart
      ensures Current() == old(Current()) && lastClick == old(lastClick)
    {
      if animationEnabled {
        cmd := Stop;
      } else {
        cmd := Restart;
      }
      animationEnabled := !animationEnabled;
    }

    /** `extendSelection` from the selected node objects `selNodes` and link
        objects `selLinks`: the indices of the nodes and links of the
        extension, or failure when a link end's index names no node. */
    method ExtendSelection(selNodes: seq<Ref>, selLinks: seq<Ref>) returns (ok: bool, nodes: set<nat>, links: set<nat>)
      requires NodesIndexed(heap, intNodes) && LinksIndexed(heap, intLinks)
      requires NodesIndexed(heap, selNodes) && LinksIndexed(heap, selLinks)
      ensures ok <==> Selection.EndsKnown(NodeIndices(heap, intNodes), LinkEdges(heap, intLinks))
      ensures ok ==> Selection.IsExtension(
        Selection.Connections(NodeIndices(heap, intNodes), LinkEdges(heap, intLinks)),
        Selection.Seeds(NodeIndices(heap, selNodes), LinkEdges(heap, selLinks)), nodes, links)
    {
      ok, nodes, links := Selection.Extend(NodeIndices(heap, intNodes), LinkEdges(heap, intLinks),
                                           NodeIndices(heap, selNodes), LinkEdges(heap, selLinks));
    }
  }
}
