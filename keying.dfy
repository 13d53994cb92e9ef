/** Which node objects an update can find again. `nodeId` files the previous
    nodes under the decimal numeral of their d3 index, while `addNode` looks a
    node up under its MAC, so an update reuses nothing unless a MAC happens to
    be a numeral or `"undefined"`. Keyed by MAC, as the commented-out
    alternative of `nodeId` has it, an update keeps every node it knows. */
module Keying {
  import opened Basics
  import opened Text
  import opened Geometry
  import opened Store
  import opened StoreProps
  import opened ReconcileProps

  /** Every key of the previous `nodeDict`, as written, is a numeral or
      `"undefined"`. */
  lemma IndexKeysAreNumerals(st: Store, isUpdate: bool)
    requires StoreValid(st)
    ensures forall k | k in InitialNodeTable(st, isUpdate, ByIndex) :: IsNumeral(k) || k == "undefined"
  {
    var t := InitialNodeTable(st, isUpdate, ByIndex);
    forall k | k in t
      ensures IsNumeral(k) || k == "undefined"
    {
      var idx := st.heap.nodes[t[k]].index;
      if idx.Some? {
        DecimalStringIsNumeral(idx.value);
      }
    }
  }

  /** As written, a node whose MAC is neither a numeral nor `"undefined"`
      always gets a new object, placed afresh from its geographic position,
      even when the update knew it: the position the simulation had given it
      is lost. */
  lemma ByIndexNeverReuses(st: Store, nodes: seq<NodeSnap>, links: seq<LinkSnap>, isUpdate: bool, lastClick: Point)
    requires StoreValid(st)
    ensures var off := Offset(lastClick, nodes);
      var s := Reconcile(st, nodes, links, isUpdate, lastClick, ByIndex).store;
      && |s.intNodes| == |nodes|
      && forall i | 0 <= i < |nodes| && !IsNumeral(nodes[i].mac) && nodes[i].mac != "undefined" && FirstWithMac(nodes, i) ::
           && s.intNodes[i] !in st.heap.nodes
           && s.heap.nodes[s.intNodes[i]].x == nodes[i].x + off.x
           && s.heap.nodes[s.intNodes[i]].y == nodes[i].y + off.y
  {
    IndexKeysAreNumerals(st, isUpdate);
    ReconcilePlacesNewNodes(st, nodes, links, isUpdate, lastClick, ByIndex);
  }

  /** A store holding one node `a` that the simulation has moved to (5, 5)
      and d3 has numbered 0. */
  function MovedNodeStore(): (st: Store)
    ensures StoreValid(st)
  {
    Store(Heap(map[0 := NodeObj(5.0, 5.0, NodeSnap("a", 0.0, 0.0), Some(0))], map[], 1), [0], [])
  }

  /** As written: updating that store with the same node `a` (now reported at
      (1, 1), last click at the origin) drops the moved object and puts a new
      one at (0, 0). */
  lemma ByIndexLosesMovedNode()
    ensures var s := Reconcile(MovedNodeStore(), [NodeSnap("a", 1.0, 1.0)], [], true, Point(0.0, 0.0), ByIndex).store;
      && |s.intNodes| == 1
      && s.intNodes[0] != 0
      && s.heap.nodes[s.intNodes[0]].x == 0.0 && s.heap.nodes[s.intNodes[0]].y == 0.0
  {
    var nodes := [NodeSnap("a", 1.0, 1.0)];
    assert "a"[0] == 'a';
    assert FirstWithMac(nodes, 0);
    ByIndexNeverReuses(MovedNodeStore(), nodes, [], true, Point(0.0, 0.0));
    assert Offset(Point(0.0, 0.0), nodes) == Point(-1.0, -1.0);
  }

  /** Keyed by MAC, the same update keeps the moved object at (5, 5). */
  lemma ByMacKeepsMovedNode()
    ensures var s := Reconcile(MovedNodeStore(), [NodeSnap("a", 1.0, 1.0)], [], true, Point(0.0, 0.0), ByMac).store;
      && |s.intNodes| == 1
      && s.intNodes[0] == 0
      && s.heap.nodes[s.intNodes[0]].x == 5.0 && s.heap.nodes[s.intNodes[0]].y == 5.0
  {
    var st := MovedNodeStore();
    var nodes := [NodeSnap("a", 1.0, 1.0)];
    assert InitialNodeTable(st, true, ByMac) == map["a" := 0];
    ReconcileKeepsNodes(st, nodes, [], true, Point(0.0, 0.0), ByMac);
  }

  /** Keyed by MAC, a node whose MAC some previous node object carries gets
      such an object back, at the position the simulation had given it. */
  lemma ByMacReuses(st: Store, nodes: seq<NodeSnap>, links: seq<LinkSnap>, lastClick: Point)
    requires StoreValid(st)
    ensures var s := Reconcile(st, nodes, links, true, lastClick, ByMac).store;
      && |s.intNodes| == |nodes|
      && forall i, j | 0 <= i < |nodes| && 0 <= j < |st.intNodes| && st.heap.nodes[st.intNodes[j]].o.mac == nodes[i].mac ::
           && s.intNodes[i] in st.intNodes
           && st.heap.nodes[s.intNodes[i]].o.mac == nodes[i].mac
           && s.heap.nodes[s.intNodes[i]].x == st.heap.nodes[s.intNodes[i]].x
           && s.heap.nodes[s.intNodes[i]].y == st.heap.nodes[s.intNodes[i]].y
  {
    var t := NodeTable(st.heap, st.intNodes, ByMac);
    assert t == InitialNodeTable(st, true, ByMac);
    ReconcileKeepsNodes(st, nodes, links, true, lastClick, ByMac);
    ReusedThroughTable(st, Reconcile(st, nodes, links, true, lastClick, ByMac).store, nodes, t);
  }

  /** When the table files every previous node object under its MAC, and only
      those objects, and the update gives each node whose MAC is filed that
      object with its position, every node whose MAC some previous object
      carries gets such an object back. */
  lemma ReusedThroughTable(st: Store, s: Store, nodes: seq<NodeSnap>, t: map<string, Ref>)
    requires StoreValid(st) && StoreValid(s)
    requires |s.intNodes| == |nodes|
    requires forall k | k in t :: t[k] in st.intNodes && NodeKey(st.heap.nodes[t[k]], ByMac) == k
    requires forall j | 0 <= j < |st.intNodes| :: NodeKey(st.heap.nodes[st.intNodes[j]], ByMac) in t
    requires forall i | 0 <= i < |nodes| && nodes[i].mac in t ::
      && s.intNodes[i] == t[nodes[i].mac]
      && s.heap.nodes[s.intNodes[i]].x == st.heap.nodes[t[nodes[i].mac]].x
      && s.heap.nodes[s.intNodes[i]].y == st.heap.nodes[t[nodes[i].mac]].y
    ensures forall i, j | 0 <= i < |nodes| && 0 <= j < |st.intNodes| && st.heap.nodes[st.intNodes[j]].o.mac == nodes[i].mac ::
      && s.intNodes[i] in st.intNodes
      && st.heap.nodes[s.intNodes[i]].o.mac == nodes[i].mac
      && s.heap.nodes[s.intNodes[i]].x == st.heap.nodes[s.intNodes[i]].x
      && s.heap.nodes[s.intNodes[i]].y == st.heap.nodes[s.intNodes[i]].y
  {
  }

  /** Keyed by MAC, repeating a snapshot as an update changes neither the
      node objects nor their positions. */
  lemma ByMacUpdateIdempotent(st: Store, nodes: seq<NodeSnap>, links: seq<LinkSnap>, isUpdate: bool,
                              click1: Point, click2: Point)
    requires StoreValid(st)
    ensures var s1 := Reconcile(st, nodes, links, isUpdate, click1, ByMac).store;
      var s2 := Reconcile(s1, nodes, links, true, click2, ByMac).store;
      && s2.intNodes == s1.intNodes
      && forall i | 0 <= i < |s1.intNodes| ::
           && s2.heap.nodes[s2.intNodes[i]].x == s1.heap.nodes[s1.intNodes[i]].x
           && s2.heap.nodes[s2.intNodes[i]].y == s1.heap.nodes[s1.intNodes[i]].y
  {
    ReconcileNodeIdentity(st, nodes, links, isUpdate, click1, ByMac);
    RebuiltKeepsAll(Reconcile(st, nodes, links, isUpdate, click1, ByMac).store, nodes, links, click2);
  }

  /** Keyed by MAC, updating a store whose `intNodes` was rebuilt from
      `nodes` with `nodes` again gives every node its object back. */
  lemma RebuiltKeepsAll(s1: Store, nodes: seq<NodeSnap>, links: seq<LinkSnap>, click: Point)
    requires StoreValid(s1) && |s1.intNodes| == |nodes|
    requires forall i, j | 0 <= i < |nodes| && 0 <= j < |nodes| :: s1.intNodes[i] == s1.intNodes[j] <==> nodes[i].mac == nodes[j].mac
    requires forall i | 0 <= i < |nodes| :: s1.heap.nodes[s1.intNodes[i]].o.mac == nodes[i].mac
    ensures var s2 := Reconcile(s1, nodes, links, true, click, ByMac).store;
      && s2.intNodes == s1.intNodes
      && forall i | 0 <= i < |s1.intNodes| ::
           && s2.heap.nodes[s2.intNodes[i]].x == s1.heap.nodes[s1.intNodes[i]].x
           && s2.heap.nodes[s2.intNodes[i]].y == s1.heap.nodes[s1.intNodes[i]].y
  {
    var t := InitialNodeTable(s1, true, ByMac);
    assert t == NodeTable(s1.heap, s1.intNodes, ByMac);
    MacTableOfRebuilt(s1.heap, s1.intNodes, nodes);
    ReconcileKeepsNodes(s1, nodes, links, true, click, ByMac);
    KeptThroughTable(s1, Reconcile(s1, nodes, links, true, click, ByMac).store, nodes, t);
  }

  /** When the table files every node under its MAC with its previous
      object, and the update gives each node whose MAC is filed that object
      with its position, the update changes neither objects nor positions. */
  lemma KeptThroughTable(s1: Store, s2: Store, nodes: seq<NodeSnap>, t: map<string, Ref>)
    requires StoreValid(s1) && StoreValid(s2)
    requires |s1.intNodes| == |nodes| == |s2.intNodes|
    requires forall i | 0 <= i < |nodes| :: nodes[i].mac in t && t[nodes[i].mac] == s1.intNodes[i]
    requires forall i | 0 <= i < |nodes| && nodes[i].mac in t ::
      && s2.intNodes[i] == t[nodes[i].mac]
      && s2.heap.nodes[s2.intNodes[i]].x == s1.heap.nodes[t[nodes[i].mac]].x
      && s2.heap.nodes[s2.intNodes[i]].y == s1.heap.nodes[t[nodes[i].mac]].y
    ensures s2.intNodes == s1.intNodes
    ensures forall i | 0 <= i < |s1.intNodes| ::
      && s2.heap.nodes[s2.intNodes[i]].x == s1.heap.nodes[s1.intNodes[i]].x
      && s2.heap.nodes[s2.intNodes[i]].y == s1.heap.nodes[s1.intNodes[i]].y
  {
    assert forall i | 0 <= i < |nodes| :: s2.intNodes[i] == s1.intNodes[i];
  }

  /** The MAC-keyed table of an `intNodes` rebuilt from `nodes` holds, under
      each node's MAC, that node's object. */
  lemma MacTableOfRebuilt(h: Heap, refs: seq<Ref>, nodes: seq<NodeSnap>)
    requires |refs| == |nodes|
    requires forall i | 0 <= i < |refs| :: refs[i] in h.nodes
    requires forall i, j | 0 <= i < |nodes| && 0 <= j < |nodes| :: refs[i] == refs[j] <==> nodes[i].mac == nodes[j].mac
    requires forall i | 0 <= i < |nodes| :: h.nodes[refs[i]].o.mac == nodes[i].mac
    ensures forall i | 0 <= i < |nodes| :: nodes[i].mac in NodeTable(h, refs, ByMac) && NodeTable(h, refs, ByMac)[nodes[i].mac] == refs[i]
  {
    var t := NodeTable(h, refs, ByMac);
    forall i | 0 <= i < |nodes|
      ensures nodes[i].mac in t && t[nodes[i].mac] == refs[i]
    {
      assert NodeKey(h.nodes[refs[i]], ByMac) == nodes[i].mac;
      var r := t[nodes[i].mac];
      var j :| 0 <= j < |refs| && refs[j] == r;
      assert nodes[j].mac == nodes[i].mac;
    }
  }
}
