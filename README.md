# GraphViewer graph view, modelled in Dafny

GraphViewer shows a mesh network as a force-directed graph on a canvas. The
browser side keeps its state in `createGraph` (`www/js/graph.js`). That state
is two lists of internal objects, `intNodes` and `intLinks`, the position of
the last click, and an animation flag. The server sends snapshots of nodes
(a MAC address and a geographic position) and links (the keys of their two
ends). This project models what that file computes, and proves what it
guarantees.

- **Reconciliation** (`updateGraph`, with `addNode`, `addLink`, `linkId`
  and `nodeId`).
  - JavaScript objects are modelled as a heap: a map from object names
    (`Ref`) to field values, plus the next unused name. Object identity is
    therefore visible. A reused node keeps its name and position, while a
    new node gets a fresh name.
  - `Store.Reconcile` is the whole update as a function, including the two
    lookup tables and the numbering d3 does afterwards (`force.nodes`,
    `forceLink.links`).
  - `GraphView.Update` is the same update written as loops that fill the
    tables and push onto the lists. Its contract is equality with
    `Reconcile`.
  - The class `GraphView.Graph` holds the mutable fields. Its method
    `UpdateGraph` replaces the store by what `Reconcile` makes of it.
  - Modules `StoreProps`, `ReconcileProps` and `Keying` prove what an update
    keeps, creates and throws, and where it places new nodes.
- **Hit testing** (module `Geometry`).
  - `distanceLink` is modelled as written, with its mix of squared and plain
    distances.
  - The scan over `intLinks` in `onClick` is a loop, proved to pick the
    nearest link within the selection radius, the first of equally near
    links winning.
- **Selection growth** (module `Selection`). `extendSelection` builds an
  adjacency map and floods from the selected nodes and the ends of the
  selected links. It is proved to compute the smallest closed set of nodes
  holding the seeds, together with every link listed under those nodes.
- **Small policies**:
  - `LinkPolicy`: the rest length and strength of a link in `forceLink`;
  - `View`: the transform `moveTo` aims for, and the focus points of
    `resetView`, `selectNode` and `selectLink`;
  - `Text`: the order strings are compared in (lexicographic, by code
    point), and the numeral keys JavaScript makes of numbers.

`sqrt` is never computed. A distance is `Plain(v)` or `Root(s)`, and two
distances are compared through their squares. `Geometry.LessIsNumericOrder`
proves this agrees with `<` on the numbers they stand for.

## Model

| member | source | states |
|---|---|---|
| `LinkPolicy.LimitFloat` | www/js/graph.js:165 | the result lies in `[lo, hi]`: it is `v` inside the interval, and the nearer limit outside it |
| `LinkPolicy.LinkDistance` | www/js/graph.js:154-159 | the rest length is 0 for a tree link (`tr > 0.5`) and 75 otherwise |
| `LinkPolicy.LinkStrength` | www/js/graph.js:160-166 | the strength is 0.02 exactly for tree links; any other link's strength lies in `[0.5, 1]` |
| `LinkPolicy.LinkStrengthAntitone` | www/js/graph.js:165 | for links that are not tree links, a larger positive `tq` never gives a larger strength |
| `LinkPolicy.LinkStrengthExtremes` | www/js/graph.js:165 | `tq` in `(0, 1]`, or `tq` zero (`1/0` is `+Infinity`), gives full strength 1; `tq >= 2` or negative gives the minimum 0.5 |
| `Text.LexLess` | www/js/graph.js:235 | string `<`: a smaller string differs from the larger one, and a proper prefix is smaller than the string it begins |
| `Text.LexLessIrreflexive` | www/js/graph.js:235 | no string is smaller than itself |
| `Text.LexLessAsymmetric` | www/js/graph.js:235 | two strings are never each smaller than the other |
| `Text.LexLessTotal` | www/js/graph.js:235 | of two different strings, one is smaller |
| `Text.LexLessTransitive` | www/js/graph.js:235 | the string order is transitive |
| `Text.DecimalStringIsNumeral` | www/js/graph.js:251 | the property key of a numeric index is a non-empty run of decimal digits |
| `Text.DecimalStringInjective` | www/js/graph.js:251 | different indices give different property keys |
| `Geometry.SqDist` | www/js/graph.js:39-41 | the inner `distance` of `distanceLink`, the squared Euclidean distance; a point is at distance 0 from itself |
| `Geometry.DistanceLink` | www/js/graph.js:38-62 | the result is non-negative. A point segment, or a projection before `a`, gives the squared distance to `a`; a projection past `b` gives the squared distance to `b`; otherwise the result is the square root of the squared distance to the projected point |
| `Geometry.DistanceLinkPointSegment` | www/js/graph.js:48-51 | a segment whose ends coincide is measured from `a`, squared |
| `Geometry.LessIsNumericOrder` | www/js/graph.js:130 | comparing two distances through their squares is the same as comparing the non-negative numbers they stand for |
| `Geometry.NearestParameterIsNearest` | www/js/graph.js:52-61 | no point of the segment is nearer to `p` than the projection clamped to the segment |
| `Geometry.DistanceLinkMeasuresNearest` | www/js/graph.js:47-61 | `distanceLink` measures the nearest point of the segment: as a square root when the projection falls inside, and squared when the nearest point is an end |
| `Geometry.DistanceLinkMissesNearEnd` | www/js/graph.js:48-58 | a click 4 units beyond the end of a 10-unit link misses it, though it is within 12 units of it; a click 4 units from the middle hits |
| `Geometry.EuclideanLink` | www/js/graph.js:38-62 | the corrected `distanceLink`: always the square root of the squared distance to the nearest point of the segment |
| `Geometry.EuclideanLinkWithin` | www/js/graph.js:58-61 | with the Euclidean distance in every case, a click is within `radius` of a link exactly when some point of the link is |
| `Geometry.PicksNearestUnique` | www/js/graph.js:126-138 | at most one choice of a link satisfies what the scan promises |
| `Geometry.NearestLink` | www/js/graph.js:126-134 | the scan selects no link exactly when every link is at least 12 away. Otherwise the selected link is nearer than 12, no other link is nearer, and every earlier link is strictly farther |
| `View.MoveTo` | www/js/graph.js:76-91 | the move is deferred exactly when it is not forced and alpha exceeds 0.3; otherwise the target keeps zoom `k` and draws the point `(x, y)` in the middle of the canvas |
| `View.MoveToTargetUnique` | www/js/graph.js:85-91 | any transform with zoom `k` that centres `(x, y)` is the one `moveTo` aims for |
| `View.ResetFocus` | www/js/graph.js:442-444 | `resetView` focuses the origin, forced, at zoom 0.5625, halfway between the minimum zoom and 1 |
| `View.ResetViewMovesNow` | www/js/graph.js:442-444 | resetting the view is never deferred, and it centres the origin |
| `View.NodeFocus` | www/js/graph.js:446-453 | there is no move exactly when Ctrl or Meta is held; otherwise the move, not forced, centres the node at zoom 2, halfway between 1 and the maximum zoom |
| `View.LinkFocus` | www/js/graph.js:455-462 | there is no move exactly when Ctrl or Meta is held; otherwise the move, not forced, centres the midpoint of the link at zoom 1.625, half the maximum zoom plus the minimum |
| `View.LinkFocusEquidistant` | www/js/graph.js:460 | the centre of a link focus is equally far from both ends |
| `Store.LinkId` | www/js/graph.js:232-236 | `linkId` is the two MACs joined by `=>`, the one that is not greater first |
| `Store.IndexKey` | www/js/graph.js:238-240 | the key JavaScript makes of `n.index` is a numeral exactly when the node has an index (`"undefined"` otherwise) |
| `Store.NodeKey` | www/js/graph.js:238-240 | keyed by index as written, the key is a numeral exactly when the node has an index; keyed by MAC, as in the commented-out alternative, it is the node's MAC |
| `Store.NodeTable` | www/js/graph.js:250-252 | `nodeDict` files every previous node under its key, and each entry is a previous node filed under its own key |
| `StoreProps.NodeTableLastWins` | www/js/graph.js:250-252 | of previous nodes sharing a key, the last one is filed under it |
| `Store.LinkTable` | www/js/graph.js:254-256 | `linkDict` files every previous link under the `linkId` of its ends, and each entry is a previous link filed under its own id |
| `StoreProps.LinkTableLastWins` | www/js/graph.js:254-256 | of previous links sharing a `linkId`, the last one is filed under it |
| `Store.Offset` | www/js/graph.js:262-268 | for a non-empty snapshot, `(px, py)` moves the centroid of the snapshot onto the last click |
| `Store.AddNode` | www/js/graph.js:270-288 | one `addNode` keeps the node pass consistent: every `nodeDict` entry and pushed entry names a node object, no two keys share an object, and links still join node objects (what it files and pushes is `StoreProps.AddNodeTable`) |
| `Store.AddNodes` | www/js/graph.js:310 | `nodes.map(addNode)` keeps the node pass consistent, leaves link objects alone, and drops no node object |
| `Store.AddLink` | www/js/graph.js:290-308 | one `addLink` keeps the link pass consistent: every `linkDict` entry and pushed entry names a link object joining node objects (what it files and pushes is `StoreProps.AddLinkTable`) |
| `Store.AddLinks` | www/js/graph.js:311 | `links.map(addLink)` keeps the link pass consistent and leaves node objects alone |
| `Store.Reconcile` | www/js/graph.js:243-322 | the rebuilt store is consistent: every entry of `intNodes` and `intLinks` names an object, and every link joins node objects (what it keeps and creates is proved in `ReconcileProps` and `Keying`) |
| `Store.IndexNodes` | www/js/graph.js:313 | d3 numbering changes only the `index` of node objects; a valid heap stays valid |
| `Store.IndexLinks` | www/js/graph.js:314 | d3 numbering changes only the `index` of link objects; a valid heap stays valid |
| `StoreProps.LinkIdSorted` | www/js/graph.js:232-236 | `linkId` is the smaller MAC, `=>`, then the larger one, whichever end comes first |
| `StoreProps.LinkIdSymmetric` | www/js/graph.js:232-236 | `linkId(a, b) == linkId(b, a)` |
| `StoreProps.AddNodeTable` | www/js/graph.js:270-288 | after `addNode`, the MAC is filed and its object pushed; existing entries stay; a new entry is made only for a MAC the table lacked, and names a new object |
| `StoreProps.AddNodeObjects` | www/js/graph.js:270-288 | `addNode` changes no object but the pushed one, which gets the snapshot as `o`; a new object sits at the snapshot position plus the offset, unindexed |
| `StoreProps.AddNodesTable` | www/js/graph.js:270-288 | `nodes.map(addNode)` pushes one entry per snapshot node, namely the object filed under its MAC; earlier entries stay, and added keys are snapshot MACs naming new objects |
| `StoreProps.AddNodesKeepPositions` | www/js/graph.js:272-277 | objects that existed before the node pass keep their position and index |
| `StoreProps.AddNodesPlaceNew` | www/js/graph.js:278-287 | the first node with a MAC the table lacked gets a new object at its position plus the offset, unindexed |
| `StoreProps.AddNodesPayload` | www/js/graph.js:275-284 | each pushed object carries its node's MAC, and carries the node itself when no later node has that MAC |
| `StoreProps.AddNodesIdentity` | www/js/graph.js:270-288 | two pushed entries are the same object exactly when their nodes have the same MAC |
| `StoreProps.AddLinkProgress` | www/js/graph.js:290-293 | after a throw `addLink` does nothing; it throws exactly when an end key does not resolve; otherwise it pushes exactly one link |
| `StoreProps.AddLinkTable` | www/js/graph.js:295-307 | after `addLink` of a resolving link, its id is filed and its entry pushed; a new entry is made only for an id the table lacked |
| `StoreProps.AddLinkObjects` | www/js/graph.js:295-307 | `addLink` changes no link but the pushed one, which gets the snapshot as `o`; a new link joins the two resolved node objects, unindexed |
| `StoreProps.AddLinksAfterThrow` | www/js/graph.js:311 | once a link has thrown, the rest of the snapshot changes nothing |
| `StoreProps.AddLinksProgress` | www/js/graph.js:290-311 | `links.map(addLink)` pushes the links before the first one that does not resolve, and throws at that one |
| `StoreProps.AddLinksTable` | www/js/graph.js:290-311 | after the link pass every pushed link is filed under its id, earlier entries stay, and new entries name new link objects |
| `StoreProps.AddLinksEnds` | www/js/graph.js:295-307 | existing links keep their ends and index; the first link with a new id is a new object joining the resolved node objects |
| `StoreProps.AddLinksPayload` | www/js/graph.js:298-305 | each pushed link carries its snapshot when no later pushed link has the same id |
| `StoreProps.AddLinksIdentity` | www/js/graph.js:290-311 | two pushed entries are the same link object exactly when their links have the same `linkId` |
| `StoreProps.IndexNodesLast` | www/js/graph.js:313 | after `force.nodes`, a node's index is the last position it has in `intNodes` |
| `StoreProps.IndexLinksLast` | www/js/graph.js:314 | after `forceLink.links`, a link's index is the last position it has in `intLinks` |
| `StoreProps.IndexNodesOthers` | www/js/graph.js:313 | nodes not in `intNodes` keep their index |
| `ReconcileProps.NodePhaseKeys` | www/js/graph.js:270-288 | after the node pass, `nodeDict` holds the previous keys and the snapshot MACs, and nothing else |
| `ReconcileProps.ReconcileThrows` | www/js/graph.js:290-311 | the update throws exactly when some link has an end key that is neither a previous key nor a snapshot MAC; `intLinks` then holds the links before the first such link, and without a throw it has one entry per link |
| `ReconcileProps.ReconcileNodeObjects` | www/js/graph.js:259-313 | the new `intNodes` is the list the node pass pushed, and the node objects differ from the node pass's at most in `index` |
| `ReconcileProps.ReconcileNodeIdentity` | www/js/graph.js:270-288 | one entry per snapshot node, in order; entries are the same object exactly when the MACs agree; each object carries its node's MAC, and the node itself when it is the last with that MAC |
| `ReconcileProps.ReconcileKeepsNodes` | www/js/graph.js:272-277 | a node whose MAC is a previous key gets that key's object, at the position it had |
| `ReconcileProps.ReconcilePlacesNewNodes` | www/js/graph.js:262-287 | the first node with a MAC not previously filed gets a new object at its position shifted by last click minus centroid |
| `ReconcileProps.ReconcileFreshWithoutUpdate` | www/js/graph.js:243-260 | without `is_update`, every node and link object of the new store is new |
| `ReconcileProps.CentroidPlacement` | www/js/graph.js:278-284 | without `is_update` and with distinct MACs, every node is placed at its position shifted by the offset |
| `ReconcileProps.ReconcileCentroid` | www/js/graph.js:262-268 | without `is_update`, with a non-empty snapshot and distinct MACs, the mean position of the new nodes is the last click |
| `ReconcileProps.ReconcileLinkObjects` | www/js/graph.js:290-314 | the new `intLinks` and the throw flag are those of the link pass, and link objects differ from the link pass's at most in `index` |
| `ReconcileProps.ReconcileLinkIdentity` | www/js/graph.js:290-308 | entries of `intLinks` are the same object exactly when their links have the same `linkId`; each carries its link when no later pushed link has the same id |
| `ReconcileProps.ReconcileKeepsLinks` | www/js/graph.js:295-299 | a link whose id was filed before gets that link object back, still joining the same two node objects |
| `ReconcileProps.ReconcileNewLinks` | www/js/graph.js:300-307 | the first link with an id not filed before gets a new object joining the node objects filed under its two end keys |
| `ReconcileProps.ReconcileIndexes` | www/js/graph.js:313-314 | after an update that did not throw, each node and each link carries the last position it has in its list as its index |
| `ReconcileProps.ReconcileNodeIndexes` | www/js/graph.js:313 | after an update that did not throw, node `i`, when last with its MAC, has index `i` |
| `ReconcileProps.ReconcileLinkIndexes` | www/js/graph.js:314 | after an update that did not throw, link `i`, when last with its id, has index `i` |
| `Keying.IndexKeysAreNumerals` | www/js/graph.js:238-252 | as written, every key of the previous `nodeDict` is a numeral or `"undefined"` |
| `Keying.ByIndexNeverReuses` | www/js/graph.js:238-240 | as written, a node whose MAC is neither a numeral nor `"undefined"` always gets a new object, placed afresh, even on an update |
| `Keying.ByIndexLosesMovedNode` | www/js/graph.js:238-240 | as written, updating a store holding node `a` at (5, 5) with `a` again drops that object and places a new one |
| `Keying.ByMacKeepsMovedNode` | www/js/graph.js:239 | keyed by MAC, the same update keeps the object at (5, 5) |
| `Keying.ByMacReuses` | www/js/graph.js:271-277 | keyed by MAC, a node whose MAC a previous object carries gets such an object back, at its position |
| `Keying.ByMacUpdateIdempotent` | www/js/graph.js:248-277 | keyed by MAC, repeating a snapshot as an update changes neither the node objects nor their positions |
| `Keying.RebuiltKeepsAll` | www/js/graph.js:248-277 | keyed by MAC, updating a store rebuilt from a snapshot with that same snapshot gives every node its object and position back |
| `Selection.Connections` | www/js/graph.js:364-373 | `connections` has a list exactly for the index of every node |
| `Selection.IncidentMembers` | www/js/graph.js:370-373 | `connections[v]` lists exactly the links that have `v` as an end |
| `Selection.ConnectionsAreWellFormed` | www/js/graph.js:366-373 | when every link end is a node, whatever `connections` lists under a node has that node as an end, and both its ends listed |
| `Selection.BuildConnections` | www/js/graph.js:364-373 | building `connections` succeeds exactly when every link end is a node index, and then yields the adjacency map |
| `Selection.ClosedOverLinks` | www/js/graph.js:378-387 | a node set is closed under `connections` exactly when every link has both ends in it or neither |
| `Selection.LinkOfOverLinks` | www/js/graph.js:378-381 | a link is listed under a selected node exactly when one of its ends is selected |
| `Selection.ExtensionUnique` | www/js/graph.js:359-403 | the extension of a seed set is unique |
| `Selection.ExtensionIdempotent` | www/js/graph.js:359-403 | extending a selection that is already an extension returns it unchanged |
| `Selection.ReExtendIdempotent` | www/js/graph.js:392-399 | running `extendSelection` again on its own output, seeded from its nodes and from the ends of its links, returns the same nodes and links |
| `Selection.SelectNode` | www/js/graph.js:375-390 | the recursion adds the node, keeps what was selected, expands every newly reached node, and reaches only nodes connected to it |
| `Selection.VisitLink` | www/js/graph.js:378-388 | one link of the `forEach` is selected, both its ends are selected, and only connected nodes are added |
| `Selection.NodeSetMembers` | www/js/graph.js:392-394 | the seed nodes are exactly the selected nodes |
| `Selection.EndSetMembers` | www/js/graph.js:396-399 | the seeds from links are exactly the ends of the selected links |
| `Selection.Extend` | www/js/graph.js:359-403 | it fails exactly when a link end names no node. Otherwise the nodes are the smallest closed set holding the seeds, and the links are those listed under them |
| `GraphView.Update` | www/js/graph.js:243-322 | the loops of `updateGraph` compute exactly `Reconcile` |
| `GraphView.NodeDicts` | www/js/graph.js:245-257 | the tables start as the previous objects by key when `is_update` is set, and empty otherwise |
| `GraphView.NodeTableLoop` | www/js/graph.js:250-252 | the `forEach` over `intNodes` builds `NodeTable` |
| `GraphView.LinkTableLoop` | www/js/graph.js:254-256 | the `forEach` over `intLinks` builds `LinkTable` |
| `GraphView.CenterOffset` | www/js/graph.js:262-268 | the two `reduce` sums give the last click minus the centroid |
| `GraphView.AddNodesLoop` | www/js/graph.js:310 | `nodes.map(addNode)` computes `AddNodes` |
| `GraphView.AddOneNode` | www/js/graph.js:270-288 | one `addNode` computes `AddNode` |
| `GraphView.AddLinksLoop` | www/js/graph.js:311 | `links.map(addLink)` computes `AddLinks`, and stops at the first link that throws |
| `GraphView.AddOneLink` | www/js/graph.js:290-308 | one `addLink` of a resolving link computes `AddLink` |
| `GraphView.IndexLoop` | www/js/graph.js:313-314 | d3 numbering of both lists computes `IndexLinks(IndexNodes(...))` |
| `GraphView.IndexNodesLoop` | www/js/graph.js:313 | node `i` gets index `i`, which is `IndexNodes` |
| `GraphView.IndexLinksLoop` | www/js/graph.js:314 | link `i` gets index `i`, which is `IndexLinks` |
| `GraphView.Graph.constructor` | www/js/graph.js:11-23 | a graph starts empty, with the last click at the origin and the animation on |
| `GraphView.Graph.UpdateGraph` | www/js/graph.js:243-322 | the store becomes what `Reconcile` makes of the old store and the last click, and the result says whether a link threw; the other fields are unchanged |
| `GraphView.Graph.OnClick` | www/js/graph.js:108-138 | a handled event changes nothing; otherwise the click is remembered; a node that `force.find` found is selected; else the link the scan picks, or nothing |
| `GraphView.Graph.ToggleAnimation` | www/js/graph.js:349-357 | the flag flips; a running simulation is stopped and a stopped one restarted; nothing else changes |
| `GraphView.Graph.ExtendSelection` | www/js/graph.js:359-403 | the result is the `Selection.Extend` extension of the selected node and link indices over the current objects' indices, or failure when a link end names no node |

## Left out

- The d3 force simulation (forces, ticks, `alpha`, `restart`, `stop`) is a
  foreign physics engine. `alpha` is an input of `View.MoveTo`, and
  `ToggleAnimation` returns the command it would send. The only part of d3
  modelled is the numbering `force.nodes` and `forceLink.links` perform.
- `force.find` is modelled as a parameter of `OnClick`. Likewise
  `transform.invert` of the mouse position, and whether the event was
  already handled.
- The following are I/O or belong to collaborators not shown here: canvas
  drawing, `redraw`, `resizeCanvas`, the zoom and drag handlers, the
  timers and the animation in `moveTo`, and `requestAnimationFrame`. The
  `draw` object (`filterSelections`, `setSelection`, `selectNode`,
  `selectLink`) is not part of this model.
- `removeGraph`, `connectSelectedNodes`, `disconnectSelectedNodes` and
  `removeSelectedItems` only send commands to the server, so they are left
  out. www/map.js and the Leaflet controls likewise.
- `LinkPolicy.LinkDistance` and `LinkPolicy.LinkStrength` take the link's
  `tr` and `tq` as numbers. The accessors in `forceLink` read
  `d.target_tr` and `d.target_tq` on the internal link object, which keeps
  the server's attributes in `d.o`. Which field they actually see is not
  modelled.
- `limitFloat` is defined outside `www/js/graph.js`. It is modelled as a
  clamp, and `1 / 0` as `+Infinity`, which the clamp turns into the upper
  limit.
- JavaScript numbers are modelled as exact reals. Rounding and NaN are left
  out. For an empty snapshot the centroid divides by zero and is NaN, but
  no node is created then, so `Store.Offset` returns an arbitrary point and
  nothing depends on it.
- Dangling links: a link whose end key is not in `nodeDict` makes
  `linkId` read a field of `undefined`, which throws a `TypeError`.
  Skipping such a link would be gentler; the code throws, and the model
  follows the code. `Reconcile` reports `threw`, and leaves the store
  as the JavaScript leaves it: `intNodes` rebuilt, `intLinks` holding the
  links before the bad one, nothing numbered.
- `GraphView.Graph.UpdateGraph` works on local copies and assigns the fields
  once at the end. The JavaScript assigns `intNodes = []` first and pushes
  as it goes. Nothing else runs in between, so the resulting state is the
  same.
- `GraphView.Graph.ExtendSelection` requires every node and link involved to
  carry a d3 index. An object without one would be filed under `undefined`
  in the JavaScript, and this case is not modelled. The selection is passed
  in and returned as index sets, because the `draw` object that stores it
  is not shown.
- `Geometry.NearestParameterIsNearest` requires `a == b` or a non-zero
  squared length `SqDist(a, b)`. One of the two always holds for real
  points, but the solver used here cannot derive `a == b` from a zero sum of
  squares.
  `Geometry.EuclideanLinkWithin` carries the same requirement.
- Strings are compared by code point. JavaScript compares UTF-16 code
  units, which orders differently only characters beyond U+FFFF. MAC
  addresses are ASCII, so `linkId` is not affected.
- The tables are modelled as maps holding only their own keys. In
  JavaScript, `key in {}` is also true for names inherited from
  `Object.prototype`, such as `"constructor"`, for which a lookup returns a
  function. A MAC or a link id never has such a name.
- `ReconcileProps.ReconcileCentroid` is stated for snapshots whose MACs are
  all different. With a repeated MAC, one object is pushed twice, and the
  mean of `intNodes` is no longer the mean of distinct objects.

## Findings

| source | as written | input that shows it | evidently intended | confidence | as-written member | corrected member |
|---|---|---|---|---|---|---|
| www/js/graph.js:238-240 | `nodeId` files the previous nodes under their d3 `index`, while `addNode` looks nodes up under their MAC (line 271). An update therefore never finds a node again unless its MAC happens to be a numeral or `"undefined"`. | A store holding node `"a"`, numbered 0 and moved by the simulation to (5, 5), updated with snapshot `[a at (1, 1)]`, last click at the origin: `a` gets a new object at (0, 0). | Key the table by `o.mac`, as the comment on line 239 has it. The update then keeps every known node's object and position. | not executed | `Keying.ByIndexLosesMovedNode` | `Keying.ByMacKeepsMovedNode` |
| www/js/graph.js:48-58 | `distanceLink` returns the squared distance when the nearest point is an end of the link (lines 50, 54 and 56), but the square root when it lies inside (line 58). `onClick` compares both against the same radius, 12. | The link (0, 0)-(10, 0) and a click at (-4, 0): the click is 4 from the link, yet `distanceLink` reports 16, so the link is not selected. A click at (5, 4), also 4 away, selects it. | The Euclidean distance to the nearest point in every case, so that a click selects a link exactly when some point of the link is within the radius. | not executed | `Geometry.DistanceLinkMissesNearEnd` | `Geometry.EuclideanLinkWithin` |

`GraphView.Graph` takes the keying and the distance measure as
constructor parameters. `ByIndex` and `AsWritten` select the code as
written, while `ByMac` and `Euclidean` select the corrected versions. Every
lemma about `Reconcile` and about the scan holds for both choices.
