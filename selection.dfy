/** `extendSelection`: the selection grown to every node and link connected
    to it. Nodes and links are named by the `index` d3 gave them. */
module Selection {

  /** An internal link, by its index and the indices of its end nodes. */
  datatype Edge = Edge(id: nat, source: nat, target: nat)

  /** The links `connections[v]` lists for node `v`: every link with `v` as
      an end, in link order, a link joining `v` to itself twice. */
  function Incident(edges: seq<Edge>, v: nat): seq<Edge>
    decreases |edges|
  {
    if |edges| == 0 then []
    else
      var e := edges[|edges| - 1];
      Incident(edges[..|edges| - 1], v) + (if e.source == v then [e] else []) + (if e.target == v then [e] else [])
  }

  lemma {:induction false} IncidentMembers(edges: seq<Edge>, v: nat, e: Edge)
    ensures e in Incident(edges, v) <==> e in edges && (e.source == v || e.target == v)
    decreases |edges|
  {
    if |edges| > 0 {
      var init := edges[..|edges| - 1];
      IncidentMembers(init, v, e);
      assert edges == init + [edges[|edges| - 1]];
    }
  }

  /** Every link end is the index of some node: only then can `connections`
      be built without pushing onto `undefined`. */
  predicate EndsKnown(nodeIds: seq<nat>, edges: seq<Edge>)
  {
    forall j | 0 <= j < |edges| :: edges[j].source in nodeIds && edges[j].target in nodeIds
  }

  /** `connections` as the two loops of `extendSelection` leave it. */
  function Connections(nodeIds: seq<nat>, edges: seq<Edge>): (conn: map<nat, seq<Edge>>)
    ensures forall v :: v in conn <==> v in nodeIds
  {
    map v | v in nodeIds :: Incident(edges, v)
  }

  /** The adjacency map lists, under each node, links that have it as an end
      and whose ends are both listed. */
  predicate ConnectionsWellFormed(conn: map<nat, seq<Edge>>)
  {
    forall v, e | v in conn && e in conn[v] :: e.source in conn && e.target in conn && (e.source == v || e.target == v)
  }

  lemma ConnectionsAreWellFormed(nodeIds: seq<nat>, edges: seq<Edge>)
    requires EndsKnown(nodeIds, edges)
    ensures ConnectionsWellFormed(Connections(nodeIds, edges))
  {
    var conn := Connections(nodeIds, edges);
    forall v: nat, e: Edge | v in conn && e in conn[v]
      ensures e.source in conn && e.target in conn && (e.source == v || e.target == v)
    {
      IncidentMembers(edges, v, e);
      var j :| 0 <= j < |edges| && edges[j] == e;
    }
  }

  lemma IncidentStep(edges: seq<Edge>, i: nat, v: nat)
    requires i < |edges|
    ensures Incident(edges[..i + 1], v) ==
      Incident(edges[..i], v) + (if edges[i].source == v then [edges[i]] else []) + (if edges[i].target == v then [edges[i]] else [])
  {
    assert edges[..i + 1][..i] == edges[..i];
  }

  /** Pushing link `edges[i]` onto the lists of its two ends extends the
      lists from `edges[..i]` to `edges[..i + 1]`. */
  lemma PushStep(nodeIds: seq<nat>, edges: seq<Edge>, i: nat, before: map<nat, seq<Edge>>, conn: map<nat, seq<Edge>>)
    requires i < |edges| && edges[i].source in before && edges[i].target in before
    requires forall v :: v in before <==> v in nodeIds
    requires forall v | v in before :: before[v] == Incident(edges[..i], v)
    requires EndsKnown(nodeIds, edges[..i])
    requires var e := edges[i];
      var c1 := before[e.source := before[e.source] + [e]];
      conn == c1[e.target := c1[e.target] + [e]]
    ensures forall v :: v in conn <==> v in nodeIds
    ensures forall v | v in conn :: conn[v] == Incident(edges[..i + 1], v)
    ensures EndsKnown(nodeIds, edges[..i + 1])
  {
    forall v | v in conn
      ensures conn[v] == Incident(edges[..i + 1], v)
    {
      IncidentStep(edges, i, v);
    }
    var next := edges[..i + 1];
    forall j | 0 <= j < i + 1
      ensures next[j].source in nodeIds && next[j].target in nodeIds
    {
      if j < i {
        assert next[j] == edges[..i][j];
      }
    }
  }

  /** Building `connections`: a list per node, then every link pushed onto
      the lists of its two ends. It fails, as the JavaScript throws, at the
      first end that has no list. */
  method BuildConnections(nodeIds: seq<nat>, edges: seq<Edge>) returns (ok: bool, conn: map<nat, seq<Edge>>)
    ensures ok <==> EndsKnown(nodeIds, edges)
    ensures ok ==> conn == Connections(nodeIds, edges)
  {
    conn := map[];
    for i := 0 to |nodeIds|
      invariant forall v :: v in conn <==> v in nodeIds[..i]
      invariant forall v | v in conn :: conn[v] == []
    {
      assert nodeIds[..i + 1] == nodeIds[..i] + [nodeIds[i]];
      conn := conn[nodeIds[i] := []];
    }
    assert nodeIds[..|nodeIds|] == nodeIds;
    for i := 0 to |edges|
      invariant forall v :: v in conn <==> v in nodeIds
      invariant forall v | v in conn :: conn[v] == Incident(edges[..i], v)
      invariant EndsKnown(nodeIds, edges[..i])
    {
      var l := edges[i];
      if l.source !in conn {
        assert !EndsKnown(nodeIds, edges) by {
          assert edges[i].source !in nodeIds;
        }
        return false, conn;
      }
      ghost var before := conn;
      conn := conn[l.source := conn[l.source] + [l]];
      if l.target !in conn {
        assert !EndsKnown(nodeIds, edges) by {
          assert edges[i].target !in nodeIds;
        }
        return false, conn;
      }
      conn := conn[l.target := conn[l.target] + [l]];
      PushStep(nodeIds, edges, i, before, conn);
    }
    assert edges[..|edges|] == edges;
    ok := true;
  }

  /** A set of nodes no link leaves: the ends of every link listed under one
      of its nodes are in it. */
  predicate Closed(conn: map<nat, seq<Edge>>, c: set<nat>)
  {
    forall v, e | v in c && v in conn && e in conn[v] :: e.source in c && e.target in c
  }

  /** Link `l` is listed under one of the nodes. */
  predicate LinkOf(conn: map<nat, seq<Edge>>, nodes: set<nat>, l: nat)
  {
    exists v, e | v in nodes && v in conn && e in conn[v] :: e.id == l
  }

  /** What `extendSelection` computes from the seeds: the smallest closed
      set of nodes holding them, and every link listed under those nodes. */
  ghost predicate IsExtension(conn: map<nat, seq<Edge>>, seeds: set<nat>, nodes: set<nat>, links: set<nat>)
  {
    && seeds <= nodes
    && Closed(conn, nodes)
    && (forall c | Closed(conn, c) && seeds <= c :: nodes <= c)
    && (forall l :: l in links <==> LinkOf(conn, nodes, l))
  }

  /** The seeds are fixed: there is only one extension of them. */
  lemma ExtensionUnique(conn: map<nat, seq<Edge>>, seeds: set<nat>, n1: set<nat>, l1: set<nat>, n2: set<nat>, l2: set<nat>)
    requires IsExtension(conn, seeds, n1, l1) && IsExtension(conn, seeds, n2, l2)
    ensures n1 == n2 && l1 == l2
  {
    assert n1 <= n2 && n2 <= n1;
    assert forall l :: l in l1 <==> l in l2;
  }

  /** Extending a selection that is already extended changes nothing. */
  lemma ExtensionIdempotent(conn: map<nat, seq<Edge>>, seeds: set<nat>, nodes: set<nat>, links: set<nat>,
                            nodes2: set<nat>, links2: set<nat>)
    requires IsExtension(conn, seeds, nodes, links)
    requires IsExtension(conn, nodes, nodes2, links2)
    ensures nodes2 == nodes && links2 == links
  {
    assert IsExtension(conn, nodes, nodes, links);
    ExtensionUnique(conn, nodes, nodes, links, nodes2, links2);
  }

  /** `extendSelection` run again on its own output changes nothing: the
      selected nodes are the extension's nodes, and the selected links are
      links listed under them, whose ends therefore add no seed. */
  lemma ReExtendIdempotent(conn: map<nat, seq<Edge>>, seeds: set<nat>, nodes: set<nat>, links: set<nat>,
                           selNodes: seq<nat>, selLinks: seq<Edge>, nodes2: set<nat>, links2: set<nat>)
    requires IsExtension(conn, seeds, nodes, links)
    requires forall v :: v in selNodes <==> v in nodes
    requires forall j | 0 <= j < |selLinks| :: exists v | v in nodes && v in conn :: selLinks[j] in conn[v]
    requires IsExtension(conn, Seeds(selNodes, selLinks), nodes2, links2)
    ensures nodes2 == nodes && links2 == links
  {
    NodeSetMembers(selNodes);
    EndSetMembers(selLinks);
    forall u | u in EndSet(selLinks)
      ensures u in nodes
    {
      var j :| 0 <= j < |selLinks| && (u == selLinks[j].source || u == selLinks[j].target);
      var v :| v in nodes && v in conn && selLinks[j] in conn[v];
    }
    assert Seeds(selNodes, selLinks) == nodes;
    ExtensionIdempotent(conn, seeds, nodes, links, nodes2, links2);
  }

  /** Over the adjacency map built from the links: a node set is closed
      exactly when every link has both ends in it or neither. */
  lemma ClosedOverLinks(nodeIds: seq<nat>, edges: seq<Edge>, c: set<nat>)
    requires EndsKnown(nodeIds, edges)
    ensures Closed(Connections(nodeIds, edges), c) <==>
      forall j | 0 <= j < |edges| :: (edges[j].source in c <==> edges[j].target in c)
  {
    var conn := Connections(nodeIds, edges);
    if Closed(conn, c) {
      forall j | 0 <= j < |edges|
        ensures edges[j].source in c <==> edges[j].target in c
      {
        var e := edges[j];
        IncidentMembers(edges, e.source, e);
        IncidentMembers(edges, e.target, e);
        assert e in conn[e.source] && e in conn[e.target];
      }
    }
    if forall j | 0 <= j < |edges| :: (edges[j].source in c <==> edges[j].target in c) {
      forall v: nat, e: Edge | v in c && v in conn && e in conn[v]
        ensures e.source in c && e.target in c
      {
        IncidentMembers(edges, v, e);
        var j :| 0 <= j < |edges| && edges[j] == e;
      }
    }
  }

  /** Over the adjacency map built from the links: a link is listed under a
      node of the set exactly when one of its ends is in it. */
  lemma LinkOfOverLinks(nodeIds: seq<nat>, edges: seq<Edge>, nodes: set<nat>, l: nat)
    requires EndsKnown(nodeIds, edges)
    ensures LinkOf(Connections(nodeIds, edges), nodes, l) <==>
      exists j | 0 <= j < |edges| :: edges[j].id == l && (edges[j].source in nodes || edges[j].target in nodes)
  {
    var conn := Connections(nodeIds, edges);
    if LinkOf(conn, nodes, l) {
      var v: nat, e: Edge :| v in nodes && v in conn && e in conn[v] && e.id == l;
      IncidentMembers(edges, v, e);
      var j :| 0 <= j < |edges| && edges[j] == e;
    }
    if exists j | 0 <= j < |edges| :: edges[j].id == l && (edges[j].source in nodes || edges[j].target in nodes) {
      var j :| 0 <= j < |edges| && edges[j].id == l && (edges[j].source in nodes || edges[j].target in nodes);
      var e := edges[j];
      var v := if e.source in nodes then e.source else e.target;
      IncidentMembers(edges, v, e);
      assert e in conn[v];
    }
  }

  /** Node `v` has been expanded: every link listed under it is selected,
      and so are both of its ends. */
  predicate Expanded(conn: map<nat, seq<Edge>>, nodes: set<nat>, links: set<nat>, v: nat)
  {
    v in conn ==> forall e | e in conn[v] :: e.id in links && e.source in nodes && e.target in nodes
  }

  /** Selecting more keeps expanded nodes expanded. */
  lemma SelectionGrows(conn: map<nat, seq<Edge>>, n1: set<nat>, l1: set<nat>, n2: set<nat>, l2: set<nat>)
    requires n1 <= n2 && l1 <= l2
    ensures forall v | Expanded(conn, n1, l1, v) :: Expanded(conn, n2, l2, v)
  {
  }

  /** Every selected link is listed, as `listing` records, under a selected
      node. */
  ghost predicate Listed(conn: map<nat, seq<Edge>>, nodes: set<nat>, links: set<nat>, listing: map<nat, (nat, Edge)>)
  {
    forall x | x in links ::
      && x in listing
      && listing[x].0 in nodes
      && listing[x].0 in conn
      && listing[x].1 in conn[listing[x].0]
      && listing[x].1.id == x
  }

  /** The links `es[..i]` are selected, and so are both of their ends. */
  predicate Scanned(es: seq<Edge>, i: nat, nodes: set<nat>, links: set<nat>)
    requires i <= |es|
  {
    forall j | 0 <= j < i :: es[j].id in links && es[j].source in nodes && es[j].target in nodes
  }

  lemma ScanStep(es: seq<Edge>, i: nat, n1: set<nat>, l1: set<nat>, nodes: set<nat>, links: set<nat>)
    requires i < |es| && Scanned(es, i, n1, l1) && n1 <= nodes && l1 <= links
    requires es[i].id in links && es[i].source in nodes && es[i].target in nodes
    ensures Scanned(es, i + 1, nodes, links)
  {
    forall j | 0 <= j < i + 1
      ensures es[j].id in links && es[j].source in nodes && es[j].target in nodes
    {
      if j < i {
        assert es[j].id in l1 && es[j].source in n1 && es[j].target in n1;
      }
    }
  }

  /** Every selected node outside `before` is expanded. */
  predicate ExpandedOutside(conn: map<nat, seq<Edge>>, before: set<nat>, nodes: set<nat>, links: set<nat>)
  {
    forall v | v in nodes && v !in before :: Expanded(conn, nodes, links, v)
  }

  lemma ExpandedStep(conn: map<nat, seq<Edge>>, before: set<nat>, n1: set<nat>, l1: set<nat>, nodes: set<nat>, links: set<nat>)
    requires before <= n1 <= nodes && l1 <= links
    requires ExpandedOutside(conn, before, n1, l1) && ExpandedOutside(conn, n1, nodes, links)
    ensures ExpandedOutside(conn, before, nodes, links)
  {
    SelectionGrows(conn, n1, l1, nodes, links);
  }

  /** Every closed set holding `from` holds `nodes`. */
  ghost predicate Confined(conn: map<nat, seq<Edge>>, from: set<nat>, nodes: set<nat>)
  {
    forall c | Closed(conn, c) && from <= c :: nodes <= c
  }

  /** Visiting link `e` of node `n` keeps the selection confined. */
  lemma ConfinedStep(conn: map<nat, seq<Edge>>, from: set<nat>, n: nat, e: Edge, n1: set<nat>, nodes: set<nat>)
    requires n in from && n in conn && e in conn[n] && from <= n1
    requires Confined(conn, from, n1) && Confined(conn, n1 + {e.source, e.target}, nodes)
    ensures Confined(conn, from, nodes)
  {
    forall c | Closed(conn, c) && from <= c
      ensures nodes <= c
    {
      assert e.source in c && e.target in c;
      assert n1 + {e.source, e.target} <= c;
    }
  }

  /** The recursive `selectNode` closure, on the `selectedNodes` and
      `selectedLinks` tables it updates, passed in and handed back. The ghost
      `listing` records, for the proof only, the node and list entry through
      which each selected link was reached. It recurses only into nodes not
      yet selected, so it ends. Afterwards `n` and every node it added are
      expanded, and nothing it added lies outside a closed set that holds `n`
      and the earlier selection. */
  method SelectNode(conn: map<nat, seq<Edge>>, n: nat, nodes0: set<nat>, links0: set<nat>, ghost listing0: map<nat, (nat, Edge)>)
    returns (nodes: set<nat>, links: set<nat>, ghost listing: map<nat, (nat, Edge)>)
    requires ConnectionsWellFormed(conn) && Listed(conn, nodes0, links0, listing0)
    ensures Listed(conn, nodes, links, listing)
    ensures nodes0 + {n} <= nodes && links0 <= links
    ensures ExpandedOutside(conn, nodes0 - {n}, nodes, links)
    ensures Confined(conn, nodes0 + {n}, nodes)
    decreases conn.Keys - (nodes0 - {n}), 0
  {
    nodes, links, listing := nodes0 + {n}, links0, listing0;
    if n in conn {
      var es := conn[n];
      for i := 0 to |es|
        invariant Listed(conn, nodes, links, listing)
        invariant nodes0 + {n} <= nodes && links0 <= links
        invariant Scanned(es, i, nodes, links)
        invariant ExpandedOutside(conn, nodes0 + {n}, nodes, links)
        invariant Confined(conn, nodes0 + {n}, nodes)
      {
        ghost var n1, l1 := nodes, links;
        assert es[i] in conn[n];
        nodes, links, listing := VisitLink(conn, n, es[i], nodes, links, listing);
        ScanStep(es, i, n1, l1, nodes, links);
        ExpandedStep(conn, nodes0 + {n}, n1, l1, nodes, links);
        ConfinedStep(conn, nodes0 + {n}, n, es[i], n1, nodes);
      }
      assert Expanded(conn, nodes, links, n);
    }
  }

  /** The body of the loop over `connections[n]` in `selectNode`: link `l`
      is selected, and each of its ends not yet selected is selected in
      turn. */
  method VisitLink(conn: map<nat, seq<Edge>>, n: nat, l: Edge, nodes0: set<nat>, links0: set<nat>, ghost listing0: map<nat, (nat, Edge)>)
    returns (nodes: set<nat>, links: set<nat>, ghost listing: map<nat, (nat, Edge)>)
    requires ConnectionsWellFormed(conn) && Listed(conn, nodes0, links0, listing0)
    requires n in nodes0 && n in conn && l in conn[n]
    ensures Listed(conn, nodes, links, listing)
    ensures nodes0 <= nodes && links0 + {l.id} <= links
    ensures l.source in nodes && l.target in nodes
    ensures ExpandedOutside(conn, nodes0, nodes, links)
    ensures Confined(conn, nodes0 + {l.source, l.target}, nodes)
    decreases conn.Keys - nodes0, 1
  {
    nodes, links, listing := nodes0, links0, listing0;
    if l.id !in links {
      links := links + {l.id};
      listing := listing[l.id := (n, l)];
    }
    if l.source !in nodes {
      assert nodes - {l.source} == nodes;
      ghost var n1, l1 := nodes, links;
      nodes, links, listing := SelectNode(conn, l.source, nodes, links, listing);
      SelectionGrows(conn, n1, l1, nodes, links);
    }
    if l.target !in nodes {
      assert nodes - {l.target} == nodes;
      ghost var n1, l1 := nodes, links;
      nodes, links, listing := SelectNode(conn, l.target, nodes, links, listing);
      SelectionGrows(conn, n1, l1, nodes, links);
    }
  }

  /** The nodes of a sequence. */
  function NodeSet(s: seq<nat>): set<nat>
    decreases |s|
  {
    if |s| == 0 then {} else NodeSet(s[..|s| - 1]) + {s[|s| - 1]}
  }

  lemma {:induction false} NodeSetMembers(s: seq<nat>)
    ensures forall v :: v in NodeSet(s) <==> v in s
    decreases |s|
  {
    if |s| > 0 {
      var init := s[..|s| - 1];
      NodeSetMembers(init);
      assert s == init + [s[|s| - 1]];
    }
  }

  /** Both ends of every link of a sequence. */
  function EndSet(s: seq<Edge>): set<nat>
    decreases |s|
  {
    if |s| == 0 then {} else EndSet(s[..|s| - 1]) + {s[|s| - 1].source, s[|s| - 1].target}
  }

  lemma {:induction false} EndSetMembers(s: seq<Edge>)
    ensures forall v :: v in EndSet(s) <==> exists j | 0 <= j < |s| :: v == s[j].source || v == s[j].target
    decreases |s|
  {
    if |s| > 0 {
      var init := s[..|s| - 1];
      EndSetMembers(init);
      assert forall j | 0 <= j < |init| :: init[j] == s[j];
    }
  }

  /** The nodes the selection starts from: the selected nodes and both ends of
      every selected link. */
  function Seeds(seedNodes: seq<nat>, seedLinks: seq<Edge>): set<nat>
  {
    NodeSet(seedNodes) + EndSet(seedLinks)
  }

  /** `extendSelection` over nodes with indices `nodeIds` and links `edges`,
      from the selected nodes and links. It fails, as the JavaScript throws,
      when a link end is not the index of a node; otherwise it returns the
      extension of the seeds. */
  method Extend(nodeIds: seq<nat>, edges: seq<Edge>, seedNodes: seq<nat>, seedLinks: seq<Edge>)
    returns (ok: bool, nodes: set<nat>, links: set<nat>)
    ensures ok <==> EndsKnown(nodeIds, edges)
    ensures ok ==> IsExtension(Connections(nodeIds, edges), Seeds(seedNodes, seedLinks), nodes, links)
  {
    var conn;
    ok, conn := BuildConnections(nodeIds, edges);
    if !ok {
      return false, {}, {};
    }
    ConnectionsAreWellFormed(nodeIds, edges);
    nodes, links := {}, {};
    ghost var listing: map<nat, (nat, Edge)> := map[];
    for i := 0 to |seedNodes|
      invariant FloodInvariant(conn, NodeSet(seedNodes[..i]), nodes, links, listing)
    {
      ghost var n0, l0, ls0 := nodes, links, listing;
      nodes, links, listing := SelectNode(conn, seedNodes[i], nodes, links, listing);
      SeedStep(conn, NodeSet(seedNodes[..i]), seedNodes[i], n0, l0, ls0, nodes, links, listing);
      assert seedNodes[..i + 1][..i] == seedNodes[..i];
    }
    assert seedNodes[..|seedNodes|] == seedNodes;
    for i := 0 to |seedLinks|
      invariant FloodInvariant(conn, NodeSet(seedNodes) + EndSet(seedLinks[..i]), nodes, links, listing)
    {
      ghost var seeds := NodeSet(seedNodes) + EndSet(seedLinks[..i]);
      ghost var n0, l0, ls0 := nodes, links, listing;
      nodes, links, listing := SelectNode(conn, seedLinks[i].source, nodes, links, listing);
      SeedStep(conn, seeds, seedLinks[i].source, n0, l0, ls0, nodes, links, listing);
      n0, l0, ls0 := nodes, links, listing;
      nodes, links, listing := SelectNode(conn, seedLinks[i].target, nodes, links, listing);
      SeedStep(conn, seeds + {seedLinks[i].source}, seedLinks[i].target, n0, l0, ls0, nodes, links, listing);
      assert seedLinks[..i + 1][..i] == seedLinks[..i];
      assert NodeSet(seedNodes) + EndSet(seedLinks[..i + 1]) == seeds + {seedLinks[i].source} + {seedLinks[i].target};
    }
    assert seedLinks[..|seedLinks|] == seedLinks;
    FloodIsExtension(conn, Seeds(seedNodes, seedLinks), nodes, links, listing);
  }

  /** Between two top-level calls: the seeds so far are selected, every
      selected node is expanded, everything selected lies in any closed set
      holding the seeds, and every selected link is listed under a selected
      node. */
  ghost predicate FloodInvariant(conn: map<nat, seq<Edge>>, seeds: set<nat>, nodes: set<nat>, links: set<nat>,
                                 listing: map<nat, (nat, Edge)>)
  {
    && ConnectionsWellFormed(conn)
    && seeds <= nodes
    && (forall v | v in nodes :: Expanded(conn, nodes, links, v))
    && Confined(conn, seeds, nodes)
    && Listed(conn, nodes, links, listing)
  }

  /** One top-level `selectNode(n)` call keeps the invariant, with `n` added
      to the seeds. */
  lemma SeedStep(conn: map<nat, seq<Edge>>, seeds: set<nat>, n: nat,
                 nodes0: set<nat>, links0: set<nat>, listing0: map<nat, (nat, Edge)>,
                 nodes: set<nat>, links: set<nat>, listing: map<nat, (nat, Edge)>)
    requires FloodInvariant(conn, seeds, nodes0, links0, listing0)
    requires Listed(conn, nodes, links, listing)
    requires nodes0 + {n} <= nodes && links0 <= links
    requires ExpandedOutside(conn, nodes0 - {n}, nodes, links)
    requires Confined(conn, nodes0 + {n}, nodes)
    ensures FloodInvariant(conn, seeds + {n}, nodes, links, listing)
  {
    SelectionGrows(conn, nodes0, links0, nodes, links);
    forall v | v in nodes
      ensures Expanded(conn, nodes, links, v)
    {
      if v in nodes0 - {n} {
        assert Expanded(conn, nodes0, links0, v);
      }
    }
    forall c | Closed(conn, c) && seeds + {n} <= c
      ensures nodes <= c
    {
      assert nodes0 <= c;
      assert nodes0 + {n} <= c;
    }
  }

  /** Once every seed has been selected, the flood holds the extension. */
  lemma FloodIsExtension(conn: map<nat, seq<Edge>>, seeds: set<nat>, nodes: set<nat>, links: set<nat>,
                         listing: map<nat, (nat, Edge)>)
    requires FloodInvariant(conn, seeds, nodes, links, listing)
    ensures IsExtension(conn, seeds, nodes, links)
  {
    forall l | LinkOf(conn, nodes, l)
      ensures l in links
    {
      var v: nat, e: Edge :| v in nodes && v in conn && e in conn[v] && e.id == l;
      assert Expanded(conn, nodes, links, v);
    }
    forall l | l in links
      ensures LinkOf(conn, nodes, l)
    {
      var (v, e) := listing[l];
      assert v in nodes && v in conn && e in conn[v] && e.id == l;
    }
  }
}
