/** What the link pass of `updateGraph` has done after a prefix of the
    snapshot links, as the predicates the lemmas of `StoreProps` carry from
    one `addLink` to the next. */
module LinkPasses {
  import opened Basics
  import opened Store

  /** Every entry of `nodeDict` is a node object of `h`. */
  predicate TableIn(nodeTable: map<string, Ref>, h: Heap)
  {
    forall k | k in nodeTable :: nodeTable[k] in h.nodes
  }

  /** The `linkId` `addLink` computes for a link snapshot, or nothing when one
      of its ends does not resolve and `addLink` throws. */
  function SnapKey(h: Heap, nodeTable: map<string, Ref>, link: LinkSnap): Option<string>
    requires TableIn(nodeTable, h)
  {
    if Resolves(nodeTable, link) then Some(LinkKey(h, nodeTable[link.source], nodeTable[link.target])) else None
  }

  /** No earlier link snapshot has the key of link `i`. */
  predicate FirstWithKey(h: Heap, nodeTable: map<string, Ref>, links: seq<LinkSnap>, i: nat)
    requires TableIn(nodeTable, h) && i < |links|
  {
    forall j | 0 <= j < i :: SnapKey(h, nodeTable, links[j]) != SnapKey(h, nodeTable, links[i])
  }

  /** No later one among the first `n` link snapshots has the key of link `i`. */
  predicate LastWithKey(h: Heap, nodeTable: map<string, Ref>, links: seq<LinkSnap>, n: nat, i: nat)
    requires TableIn(nodeTable, h) && i < n <= |links|
  {
    forall j | i < j < n :: SnapKey(h, nodeTable, links[j]) != SnapKey(h, nodeTable, links[i])
  }

  /** How far the link pass has got through `links`, having started with
      nothing pushed: the links before the first one that does not resolve
      are pushed, and it throws at that one. */
  predicate LinksProgress(nodeTable: map<string, Ref>, links: seq<LinkSnap>, r: LinkPass)
  {
    && |r.pushed| <= |links|
    && (forall i | 0 <= i < |r.pushed| :: Resolves(nodeTable, links[i]))
    && (r.threw ==> |r.pushed| < |links| && !Resolves(nodeTable, links[|r.pushed|]))
    && (!r.threw ==> |r.pushed| == |links|)
  }

  /** What the link pass has done to `linkDict` after `links`, starting from
      `p`: entries already in the table stay; the others are keys of pushed
      links and lead to links created during the pass; the entry of pushed
      link `i` is what the table holds under its key. */
  predicate LinksTable(p: LinkPass, nodeTable: map<string, Ref>, links: seq<LinkSnap>, r: LinkPass)
    requires TableIn(nodeTable, p.heap)
  {
    && LinksProgress(nodeTable, links, r)
    && r.heap.nodes == p.heap.nodes
    && p.heap.next <= r.heap.next
    && TableKept(p, r)
    && TableGrown(p, nodeTable, links, r)
    && TableEntries(p, nodeTable, links, r)
  }

  /** Entries already in `linkDict` stay. */
  predicate TableKept(p: LinkPass, r: LinkPass)
  {
    forall k | k in p.table :: k in r.table && r.table[k] == p.table[k]
  }

  /** The other entries are keys of pushed links and lead to links created
      during the pass. */
  predicate TableGrown(p: LinkPass, nodeTable: map<string, Ref>, links: seq<LinkSnap>, r: LinkPass)
    requires TableIn(nodeTable, p.heap)
  {
    forall k | k in r.table && k !in p.table ::
      && r.table[k] >= p.heap.next
      && exists j | 0 <= j < |r.pushed| && j < |links| :: SnapKey(p.heap, nodeTable, links[j]) == Some(k)
  }

  /** The entry of pushed link `i` is what `linkDict` holds under its key. */
  predicate TableEntries(p: LinkPass, nodeTable: map<string, Ref>, links: seq<LinkSnap>, r: LinkPass)
    requires TableIn(nodeTable, p.heap)
  {
    forall i | 0 <= i < |r.pushed| && i < |links| ::
      && SnapKey(p.heap, nodeTable, links[i]).Some?
      && SnapKey(p.heap, nodeTable, links[i]).value in r.table
      && r.table[SnapKey(p.heap, nodeTable, links[i]).value] == r.pushed[i]
  }

  /** What the link pass has done to link ends after `links`, starting from
      `p`: the table as `LinksTable` has it, and the ends as
      `LinkObjectEnds` has them. */
  predicate LinksEnds(p: LinkPass, nodeTable: map<string, Ref>, links: seq<LinkSnap>, r: LinkPass)
    requires TableIn(nodeTable, p.heap)
  {
    && LinksTable(p, nodeTable, links, r)
    && LinkObjectEnds(p, nodeTable, links, r)
  }

  /** Links that existed keep their ends and index; the first link with a
      key the table lacked is a new object joining the two resolved nodes. */
  predicate LinkObjectEnds(p: LinkPass, nodeTable: map<string, Ref>, links: seq<LinkSnap>, r: LinkPass)
    requires TableIn(nodeTable, p.heap) && LinksProgress(nodeTable, links, r)
  {
    && (forall i | 0 <= i < |r.pushed| :: r.pushed[i] in r.heap.links)
    && (forall m | m in p.heap.links ::
          && m in r.heap.links
          && r.heap.links[m].source == p.heap.links[m].source
          && r.heap.links[m].target == p.heap.links[m].target
          && r.heap.links[m].index == p.heap.links[m].index)
    && (forall i | 0 <= i < |r.pushed| && SnapKey(p.heap, nodeTable, links[i]).value !in p.table && FirstWithKey(p.heap, nodeTable, links, i) ::
          && r.pushed[i] !in p.heap.links
          && r.heap.links[r.pushed[i]].source == nodeTable[links[i].source]
          && r.heap.links[r.pushed[i]].target == nodeTable[links[i].target]
          && r.heap.links[r.pushed[i]].index == None)
  }

  /** What the link pass has done to link payloads after `links`, starting
      from `p`: the table as `LinksTable` has it, and the snapshots as
      `LinkPayloads` has them. */
  predicate LinksPayload(p: LinkPass, nodeTable: map<string, Ref>, links: seq<LinkSnap>, r: LinkPass)
    requires TableIn(nodeTable, p.heap)
  {
    && LinksTable(p, nodeTable, links, r)
    && LinkPayloads(p, nodeTable, links, r)
  }

  /** Every pushed link carries its snapshot, unless a later pushed link has
      the same key. */
  predicate LinkPayloads(p: LinkPass, nodeTable: map<string, Ref>, links: seq<LinkSnap>, r: LinkPass)
    requires TableIn(nodeTable, p.heap) && |r.pushed| <= |links|
  {
    && (forall i | 0 <= i < |r.pushed| :: r.pushed[i] in r.heap.links)
    && (forall i | 0 <= i < |r.pushed| && LastWithKey(p.heap, nodeTable, links, |r.pushed|, i) ::
          r.heap.links[r.pushed[i]].o == links[i])
  }

  /** What an update did with the links of the snapshot it kept, `s` being the
      store after it, `np` what its node pass left and `t` the previous
      `linkDict` over the objects of `h0`: the links `s` holds resolve, and
      each whose `linkId` is in `t` is the object `t` holds under it, with the
      ends it had in `h0`. */
  predicate KeepsOldLinks(h0: Heap, np: NodePass, t: map<string, Ref>, s: Store, links: seq<LinkSnap>)
    requires TableIn(np.table, np.heap) && StoreValid(s)
    requires forall k | k in t :: t[k] in h0.links
  {
    && |s.intLinks| <= |links|
    && (forall i | 0 <= i < |s.intLinks| :: Resolves(np.table, links[i]))
    && forall i | 0 <= i < |s.intLinks| && SnapKey(np.heap, np.table, links[i]).value in t ::
         && s.intLinks[i] == t[SnapKey(np.heap, np.table, links[i]).value]
         && s.heap.links[s.intLinks[i]].source == h0.links[s.intLinks[i]].source
         && s.heap.links[s.intLinks[i]].target == h0.links[s.intLinks[i]].target
  }

  /** Likewise for the links it created: the links `s` holds resolve, and the
      first with a `linkId` that `t` lacks is an object `h0` did not have,
      joining the node objects `nodeDict` holds under its two end keys. */
  predicate JoinsNewLinks(h0: Heap, np: NodePass, t: map<string, Ref>, s: Store, links: seq<LinkSnap>)
    requires TableIn(np.table, np.heap) && StoreValid(s)
  {
    && |s.intLinks| <= |links|
    && (forall i | 0 <= i < |s.intLinks| :: Resolves(np.table, links[i]))
    && forall i | 0 <= i < |s.intLinks| && SnapKey(np.heap, np.table, links[i]).value !in t && FirstWithKey(np.heap, np.table, links, i) ::
         && s.intLinks[i] !in h0.links
         && s.heap.links[s.intLinks[i]].source == np.table[links[i].source]
         && s.heap.links[s.intLinks[i]].target == np.table[links[i].target]
  }
}
