/** The view's own state: the node list and the spoke/mesh flag, with the two
    updaters the "Add Node" and "Switch" buttons apply, and the link list that is
    regenerated from them. */
module View {
  import opened Topology

  datatype ViewState = ViewState(nodes: seq<NodeData>, isSpokeMode: bool)

  /** The two buttons of the view. */
  datatype Action = AddNodeClicked | SwitchModeClicked

  /** The state on mount: one node with id 0, full-mesh mode. */
  function Initial(): (v: ViewState)
    ensures Canonical(v.nodes) && |v.nodes| == 1 && !v.isSpokeMode
  {
    ViewState([NodeData(0)], false)
  }

  /** The `addNode` updater: the previous list with one node appended whose id
      is the previous length. */
  function AddNode(prevNodes: seq<NodeData>): (r: seq<NodeData>)
    ensures |r| == |prevNodes| + 1
    ensures r[..|prevNodes|] == prevNodes
    ensures r[|prevNodes|].id == |prevNodes|
  {
    prevNodes + [NodeData(|prevNodes|)]
  }

  /** The `switchMode` updater. */
  function SwitchMode(prevMode: bool): (r: bool)
    ensures r != prevMode
  {
    !prevMode
  }

  /** The links the view builds for its current state; their number is the
      connection count of the status label. */
  function Links(v: ViewState): (r: seq<Link>)
    ensures |r| == if v.isSpokeMode then (if |v.nodes| == 0 then 0 else |v.nodes| - 1)
                   else |v.nodes| * (|v.nodes| - 1) / 2
  {
    GenerateLinks(v.nodes, v.isSpokeMode)
  }

  /** One button click: each updater changes only its own part of the state. */
  function Step(v: ViewState, a: Action): (r: ViewState)
    ensures a.AddNodeClicked? ==> r.isSpokeMode == v.isSpokeMode
    ensures a.SwitchModeClicked? ==> r.nodes == v.nodes
  {
    match a
    case AddNodeClicked => v.(nodes := AddNode(v.nodes))
    case SwitchModeClicked => v.(isSpokeMode := SwitchMode(v.isSpokeMode))
  }

  /** The state after a sequence of clicks from the initial state. The first
      node is never replaced, so it always has id 0. */
  function Replay(actions: seq<Action>): (r: ViewState)
    ensures |r.nodes| >= 1 && r.nodes[0] == NodeData(0)
  {
    if actions == [] then Initial()
    else Step(Replay(actions[..|actions| - 1]), actions[|actions| - 1])
  }

  function CountAdds(actions: seq<Action>): nat
  {
    if actions == [] then 0
    else CountAdds(actions[..|actions| - 1]) + (if actions[|actions| - 1].AddNodeClicked? then 1 else 0)
  }

  function CountSwitches(actions: seq<Action>): nat
  {
    if actions == [] then 0
    else CountSwitches(actions[..|actions| - 1]) + (if actions[|actions| - 1].SwitchModeClicked? then 1 else 0)
  }

  // ---------------------------------------------------------------------------

  /** `addNode` keeps "node k has id k". */
  lemma AddNodeKeepsCanonical(nodes: seq<NodeData>)
    requires Canonical(nodes)
    ensures Canonical(AddNode(nodes))
  {
  }

  /** Switching twice restores the mode. */
  lemma SwitchTwice(mode: bool)
    ensures SwitchMode(SwitchMode(mode)) == mode
  {
  }

  /** Every state the buttons can reach has node k with id k, one node more than
      the number of additions, and spoke mode exactly when the number of
      switches is odd. */
  lemma {:induction false} ReplayReachable(actions: seq<Action>)
    ensures Canonical(Replay(actions).nodes)
    ensures |Replay(actions).nodes| == 1 + CountAdds(actions)
    ensures Replay(actions).isSpokeMode == (CountSwitches(actions) % 2 == 1)
  {
    if actions != [] {
      var prefix := actions[..|actions| - 1];
      ReplayReachable(prefix);
      AddNodeKeepsCanonical(Replay(prefix).nodes);
    }
  }

  /** The initial state has no links. */
  lemma InitialHasNoLinks()
    ensures Links(Initial()) == []
  {
  }

  /** On every reachable state the links are strictly sorted by (source, target),
      none is a self-link, no two join the same pair, and there are n(n-1)/2 of
      them in full-mesh mode and n-1 in spoke mode, all from node 0. */
  lemma ReachableLinks(actions: seq<Action>)
    ensures var v := Replay(actions); var n := |v.nodes|;
      && StrictlySorted(Links(v))
      && (forall k :: 0 <= k < |Links(v)| ==> Links(v)[k].source != Links(v)[k].target)
      && (forall k, l :: 0 <= k < l < |Links(v)| ==> !SameUnorderedPair(Links(v)[k], Links(v)[l]))
      && |Links(v)| == (if v.isSpokeMode then n - 1 else n * (n - 1) / 2)
      && (v.isSpokeMode ==> forall k :: 0 <= k < |Links(v)| ==> Links(v)[k].source == v.nodes[0].id)
  {
    var v := Replay(actions);
    ReplayReachable(actions);
    CanonicalIdsIncreasing(v.nodes);
    if v.isSpokeMode {
      SpokeSortedNoSelf(v.nodes);
      var r := Links(v);
      forall k, l | 0 <= k < l < |r| ensures !SameUnorderedPair(r[k], r[l]) {
        assert LexLess(r[k], r[l]);
      }
    } else {
      MeshSorted(v.nodes);
      MeshNoSelfOrDuplicate(v.nodes);
    }
  }

  /** Adding a node to a reachable state adds n links in full-mesh mode and one
      link, (0, n), at the end in spoke mode. */
  lemma AddNodeLinkGrowth(v: ViewState)
    requires |v.nodes| >= 1
    ensures var w := Step(v, AddNodeClicked); var n := |v.nodes|;
      && |Links(w)| == |Links(v)| + (if v.isSpokeMode then 1 else n)
      && (v.isSpokeMode ==> Links(w) == Links(v) + [Link(0, n)])
  {
    var n := |v.nodes|;
    assert AddNode(v.nodes) == v.nodes + [NodeData(n)];
    if v.isSpokeMode {
      SpokeGrowth(v.nodes, NodeData(n));
    } else {
      MeshGrowth(v.nodes, NodeData(n));
    }
  }

  /** Scenario: three nodes in full mesh give (0,1), (0,2), (1,2); switching to
      spoke gives (0,1), (0,2). */
  lemma ThreeNodeScenario()
    ensures var v := Replay([AddNodeClicked, AddNodeClicked]);
      && Links(v) == [Link(0, 1), Link(0, 2), Link(1, 2)]
      && Links(Step(v, SwitchModeClicked)) == [Link(0, 1), Link(0, 2)]
  {
  }
}
