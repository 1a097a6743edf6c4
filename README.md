# Force-directed graph view: link topology, view state and drag pinning

This project models the logic of the `ForceDirectedGraph` component of the
d3-demo repository (`src/ForceDirectedGraph.js`) and proves properties of it in
Dafny. The component shows a force-directed node/link diagram. Its state is a
node list and a spoke/mesh flag. An "Add Node" button and a "Switch" button
update that state. On every change it rebuilds the link list. Nodes can be
dragged; a dragged node is pinned while the pointer holds it.

Three modules, one per piece of the component:

- `Topology` (`topology.dfy`): link generation. `MeshLinks` follows the
  `flatMap` over rows: row `i` links node `i` to every later node. `SpokeLinks`
  links the literal id `0` to every node of `slice(1)`. `GenerateLinks` picks
  one of the two by the flag. Lemmas give the exact contents, order and count
  of both lists.
- `View` (`view_state.dfy`): the state `(nodes, isSpokeMode)`, the initial
  state `[{id: 0}]` in full-mesh mode, and the `addNode` and `switchMode`
  updaters. `Replay` applies a sequence of button clicks from the initial
  state. Lemmas show that every reachable state has node `k` with id `k`. They
  also show the resulting link guarantees and how the link list grows when a
  node is added.
- `Drag` (`drag.dfy`): the drag handlers as methods of a `Simulation` class
  that holds the alpha target and whether the simulation is running. They
  write the pin fields `fx`/`fy` of a `Node` object in place.

Pure code (the link generation and the functional updaters) is modelled with
functions over sequences. The handlers, which mutate node objects and the
shared simulation, are modelled as methods with `modifies` frames limited to
the fields they write.

In the component, the same JavaScript objects sit in the React node list and
in the d3 simulation, which adds position fields to them. The model separates
the two views of a node. The link generator sees a `NodeData` value holding
only the id. The drag handlers see a `Node` object with its id, position and
pin fields.

## Model

| member | source | states |
|---|---|---|
| Topology.SpokeLinks | src/ForceDirectedGraph.js:30-31 | there are n-1 spoke links for n ≥ 1 nodes (none for n = 0); link k is (0, nodes[k+1].id) |
| Topology.MeshLinks | src/ForceDirectedGraph.js:33-35 | full mesh over n nodes has exactly n(n-1)/2 links |
| Topology.GenerateLinks | src/ForceDirectedGraph.js:29-36 | the list has n-1 links in spoke mode (none for no nodes) and n(n-1)/2 in full-mesh mode |
| Topology.MeshLinkAt | src/ForceDirectedGraph.js:33-35 | for every pair of positions i < j, the link (nodes[i].id, nodes[j].id) is in the mesh, at its row-major position |
| Topology.MeshLinkInverse | src/ForceDirectedGraph.js:33-35 | every mesh link is (nodes[i].id, nodes[j].id) for some i < j, and sits at that pair's row-major position |
| Topology.PairPositionOrder | src/ForceDirectedGraph.js:33-35 | row-major positions increase with the lexicographic order of (i, j), so the mesh lists pairs in (i, j) order |
| Topology.MeshSorted | src/ForceDirectedGraph.js:33-35 | when ids grow along the list, the mesh links are strictly sorted by (source, target) |
| Topology.MeshNoSelfOrDuplicate | src/ForceDirectedGraph.js:33-35 | with distinct ids, no mesh link is a self-link and no two mesh links join the same unordered pair |
| Topology.MeshGrowth | src/ForceDirectedGraph.js:33-35 | appending a node to n nodes adds exactly n mesh links |
| Topology.SpokeGrowth | src/ForceDirectedGraph.js:31 | appending a node to a non-empty list appends exactly (0, new id) to the spoke links and changes nothing else |
| Topology.SingleNodeNoLinks | src/ForceDirectedGraph.js:29-36 | with at most one node, both modes yield an empty link list |
| Topology.SpokeHubIsFirstNode | src/ForceDirectedGraph.js:31 | when the first node has id 0, the literal 0 is the first node's id: link k joins nodes[0] and nodes[k+1] |
| Topology.SpokeSortedNoSelf | src/ForceDirectedGraph.js:31 | when ids grow from 0, spoke links are strictly sorted and none is a self-link |
| View.Initial | src/ForceDirectedGraph.js:5-7 | the mount state is one node with id 0 (so node k has id k) in full-mesh mode |
| View.Links | src/ForceDirectedGraph.js:29-37 | the links recomputed from the state number n-1 in spoke mode and n(n-1)/2 in full-mesh mode, the connection count of the status label |
| View.Replay | src/ForceDirectedGraph.js:5-16 | after any sequence of clicks there is at least one node and the first node is still {id: 0} |
| View.AddNode | src/ForceDirectedGraph.js:10-12 | appends exactly one node whose id is the previous length; earlier nodes are unchanged |
| View.SwitchMode | src/ForceDirectedGraph.js:14-16 | the new mode is the negation of the previous one |
| View.Step | src/ForceDirectedGraph.js:10-16 | adding a node leaves the mode alone; switching the mode leaves the node list alone |
| View.SwitchTwice | src/ForceDirectedGraph.js:15 | switching twice restores the mode |
| View.AddNodeKeepsCanonical | src/ForceDirectedGraph.js:11 | addNode preserves "node k has id k" |
| View.ReplayReachable | src/ForceDirectedGraph.js:5-16 | from the initial state [{id: 0}], every reachable node list has node k with id k; its length is 1 + the number of additions; spoke mode holds exactly when the number of switches is odd |
| View.InitialHasNoLinks | src/ForceDirectedGraph.js:5-7 | the initial state yields no links |
| View.ReachableLinks | src/ForceDirectedGraph.js:29-36 | in every reachable state the links are strictly sorted, contain no self-link and no repeated pair, and number n(n-1)/2 (mesh) or n-1 (spoke); in spoke mode all of them start at node 0 |
| View.AddNodeLinkGrowth | src/ForceDirectedGraph.js:11 | adding a node to n ≥ 1 nodes adds n links in mesh mode and one link, (0, n), at the end in spoke mode |
| View.ThreeNodeScenario | src/ForceDirectedGraph.js:29-36 | three nodes give (0,1), (0,2), (1,2) in mesh mode, and (0,1), (0,2) after switching to spoke |
| Drag.Simulation.constructor | src/ForceDirectedGraph.js:39-40 | a new simulation holds the node list, is running, and has alpha target 0 |
| Drag.Simulation.Stop | src/ForceDirectedGraph.js:113 | the cleanup stops the simulation: it is no longer running |
| Drag.Simulation.DragStarted | src/ForceDirectedGraph.js:96-100 | pins fx, fy to the node's current x, y; sets alpha target 0.3 and restarts only when event.active is 0, otherwise leaves both alone; no other node changes |
| Drag.Simulation.Dragged | src/ForceDirectedGraph.js:102-105 | sets fx, fy to the event's x, y; the alpha target and every other node are unchanged |
| Drag.Simulation.DragEnded | src/ForceDirectedGraph.js:107-111 | clears fx, fy; sets alpha target 0 only when event.active is 0, otherwise leaves it alone; no other node changes |
| Drag.Simulation.DragTo | src/ForceDirectedGraph.js:96-111 | a single-pointer press, move to (px, py) and release: the pin is exactly (px, py) at release, and afterwards the node is free and the alpha target is back at 0 |

## Left out

- The d3 force simulation (`forceSimulation`, `forceLink`, `forceManyBody`, `forceX`/`forceY`, lines 39-50) is a foreign library working in floating point. The `restart()` call (line 97) and the `stop()` cleanup (line 113) are kept only as the `running` flag they set and clear; the timer behind it is not modelled. The solver step that moves a pinned node to its pin is not modelled.
- `ticked` (lines 86-94) only copies coordinates into SVG attributes, so it is left out.
- SVG construction, styling and the status label (lines 19-27, 52-84) are rendering, so they are left out. The label's connection count is the length of the generated link list, which `View.ReachableLinks` counts.
- React hooks are framework plumbing and are left out: `useState`, `setLinks`, the effect's dependency list, the scheduling of the cleanup and the JSX buttons (lines 18, 37, 113-124). The effect is modelled as the pure `View.Links`, recomputed from the state.
- Node coordinates are `int`, not JavaScript floating-point numbers. The alpha target is a Dafny `real`.
- The JavaScript objects shared between the React node list and the simulation are modelled as two separate things: `NodeData` values for link generation and `Node` objects for dragging. Aliasing between them is not modelled.
