/** Link generation for the force-directed graph view.
    The view regenerates its whole link list from the node list and the mode flag
    each time either changes: in full-mesh mode every node is linked to every later
    node, in spoke mode node 0 is linked to every other node. */
module Topology {

  /** A node as the link generator sees it: only its id. */
  datatype NodeData = NodeData(id: int)

  /** A link between two node ids. */
  datatype Link = Link(source: int, target: int)

  /** JavaScript's `slice(from)`: the suffix from `from` on, empty past the end. */
  function SliceFrom<T>(s: seq<T>, from: nat): (r: seq<T>)
    ensures |r| == if from <= |s| then |s| - from else 0
    ensures forall k :: 0 <= k < |r| ==> r[k] == s[from + k]
  {
    if from <= |s| then s[from..] else []
  }

  /** `targets.map(t => ({source: sourceId, target: t.id}))` */
  function Row(sourceId: int, targets: seq<NodeData>): seq<Link>
  {
    seq(|targets|, k requires 0 <= k < |targets| => Link(sourceId, targets[k].id))
  }

  /** The rows `i, i+1, ...` of the full-mesh `flatMap`: row `i` links node `i`
      to every node after it. */
  function MeshFrom(nodes: seq<NodeData>, i: nat): seq<Link>
    requires i <= |nodes|
    decreases |nodes| - i
  {
    if i == |nodes| then []
    else Row(nodes[i].id, nodes[i + 1..]) + MeshFrom(nodes, i + 1)
  }

  /** Full-mesh mode: one link per pair of positions i < j, row by row, so
      n(n-1)/2 links over n nodes. */
  function MeshLinks(nodes: seq<NodeData>): (r: seq<Link>)
    ensures |r| == |nodes| * (|nodes| - 1) / 2
  {
    MeshFromLength(nodes, 0);
    TriClosedForm(|nodes|);
    MeshFrom(nodes, 0)
  }

  /** Spoke mode: the literal id 0 linked to every node after the first. */
  function SpokeLinks(nodes: seq<NodeData>): (r: seq<Link>)
    ensures |r| == if |nodes| == 0 then 0 else |nodes| - 1
    ensures forall k :: 0 <= k < |r| ==> r[k] == Link(0, nodes[k + 1].id)
  {
    Row(0, SliceFrom(nodes, 1))
  }

  /** The link list the view builds for a node list and a mode flag. */
  function GenerateLinks(nodes: seq<NodeData>, isSpokeMode: bool): (r: seq<Link>)
    ensures isSpokeMode ==> |r| == if |nodes| == 0 then 0 else |nodes| - 1
    ensures !isSpokeMode ==> |r| == |nodes| * (|nodes| - 1) / 2
  {
    if isSpokeMode then SpokeLinks(nodes) else MeshLinks(nodes)
  }

  // ---------------------------------------------------------------------------
  // Vocabulary for the properties

  /** Node k has id k: the shape every node list of the view has. */
  predicate Canonical(nodes: seq<NodeData>)
  {
    forall k :: 0 <= k < |nodes| ==> nodes[k].id == k
  }

  /** Ids grow strictly along the list. */
  predicate IdsIncreasing(nodes: seq<NodeData>)
  {
    forall k, l :: 0 <= k < l < |nodes| ==> nodes[k].id < nodes[l].id
  }

  /** No two positions carry the same id. */
  predicate DistinctIds(nodes: seq<NodeData>)
  {
    forall k, l :: 0 <= k < l < |nodes| ==> nodes[k].id != nodes[l].id
  }

  /** Lexicographic order on (source, target). */
  predicate LexLess(a: Link, b: Link)
  {
    a.source < b.source || (a.source == b.source && a.target < b.target)
  }

  predicate StrictlySorted(links: seq<Link>)
  {
    forall k, l :: 0 <= k < l < |links| ==> LexLess(links[k], links[l])
  }

  /** The two links join the same two ids, in either direction. */
  predicate SameUnorderedPair(a: Link, b: Link)
  {
    (a.source == b.source && a.target == b.target) ||
    (a.source == b.target && a.target == b.source)
  }

  /** Number of pairs i < j among m items, counted one row at a time. */
  function Tri(m: nat): nat
  {
    if m == 0 then 0 else Tri(m - 1) + (m - 1)
  }

  /** Index of the link for positions (i, j) in the row-major mesh order:
      rows 0 .. i-1 come first, then the j - i - 1 links of row i before it. */
  function PairPosition(n: nat, i: nat, j: nat): int
    requires i < j < n
  {
    Tri(n) - Tri(n - i) + (j - i - 1)
  }

  // ---------------------------------------------------------------------------
  // Counting

  lemma {:induction false} TriClosedForm(m: nat)
    ensures Tri(m) == m * (m - 1) / 2
  {
    if m > 0 {
      TriClosedForm(m - 1);
      assert m * (m - 1) == (m - 1) * (m - 2) + 2 * (m - 1);
    }
  }

  lemma {:induction false} TriMonotone(a: nat, b: nat)
    requires a <= b
    ensures Tri(a) <= Tri(b)
  {
    if a < b {
      TriMonotone(a, b - 1);
    }
  }

  lemma {:induction false} MeshFromLength(nodes: seq<NodeData>, i: nat)
    requires i <= |nodes|
    ensures |MeshFrom(nodes, i)| == Tri(|nodes| - i)
    decreases |nodes| - i
  {
    if i < |nodes| {
      MeshFromLength(nodes, i + 1);
    }
  }

  /** Appending a node adds n mesh links to a list of n nodes. */
  lemma MeshGrowth(nodes: seq<NodeData>, v: NodeData)
    ensures |MeshLinks(nodes + [v])| == |MeshLinks(nodes)| + |nodes|
  {
  }

  /** Appending a node to a non-empty list adds exactly the link (0, new id) at
      the end of the spoke list. */
  lemma SpokeGrowth(nodes: seq<NodeData>, v: NodeData)
    requires |nodes| >= 1
    ensures SpokeLinks(nodes + [v]) == SpokeLinks(nodes) + [Link(0, v.id)]
  {
  }

  /** With a single node, both modes yield no link; with none, neither. */
  lemma SingleNodeNoLinks(nodes: seq<NodeData>, isSpokeMode: bool)
    requires |nodes| <= 1
    ensures GenerateLinks(nodes, isSpokeMode) == []
  {
  }

  // ---------------------------------------------------------------------------
  // Exact contents and order of the full mesh

  lemma {:induction false} MeshFromAt(nodes: seq<NodeData>, s: nat, i: nat, j: nat)
    requires s <= i < j < |nodes|
    ensures 0 <= Tri(|nodes| - s) - Tri(|nodes| - i) + (j - i - 1) < |MeshFrom(nodes, s)|
    ensures MeshFrom(nodes, s)[Tri(|nodes| - s) - Tri(|nodes| - i) + (j - i - 1)]
            == Link(nodes[i].id, nodes[j].id)
    decreases i - s
  {
    var n := |nodes|;
    var row := Row(nodes[s].id, nodes[s + 1..]);
    MeshFromLength(nodes, s);
    if s == i {
      assert MeshFrom(nodes, s)[j - i - 1] == row[j - i - 1];
    } else {
      MeshFromAt(nodes, s + 1, i, j);
      var k' := Tri(n - s - 1) - Tri(n - i) + (j - i - 1);
      assert Tri(n - s) == Tri(n - s - 1) + (n - s - 1);
      assert MeshFrom(nodes, s)[|row| + k'] == MeshFrom(nodes, s + 1)[k'];
    }
  }

  /** Every pair of positions i < j has its link at PairPosition(n, i, j). */
  lemma MeshLinkAt(nodes: seq<NodeData>, i: nat, j: nat)
    requires i < j < |nodes|
    ensures 0 <= PairPosition(|nodes|, i, j) < |MeshLinks(nodes)|
    ensures MeshLinks(nodes)[PairPosition(|nodes|, i, j)] == Link(nodes[i].id, nodes[j].id)
  {
    MeshFromAt(nodes, 0, i, j);
  }

  lemma {:induction false} MeshFromInverse(nodes: seq<NodeData>, s: nat, k: nat) returns (i: nat, j: nat)
    requires s <= |nodes|
    requires k < |MeshFrom(nodes, s)|
    ensures s <= i < j < |nodes|
    ensures k == Tri(|nodes| - s) - Tri(|nodes| - i) + (j - i - 1)
    ensures MeshFrom(nodes, s)[k] == Link(nodes[i].id, nodes[j].id)
    decreases |nodes| - s
  {
    var n := |nodes|;
    var row := Row(nodes[s].id, nodes[s + 1..]);
    if k < |row| {
      i, j := s, s + 1 + k;
    } else {
      i, j := MeshFromInverse(nodes, s + 1, k - |row|);
      assert Tri(n - s) == Tri(n - s - 1) + (n - s - 1);
    }
  }

  /** Every mesh link is the link of some pair of positions i < j, sitting at
      that pair's row-major position. */
  lemma MeshLinkInverse(nodes: seq<NodeData>, k: nat) returns (i: nat, j: nat)
    requires k < |MeshLinks(nodes)|
    ensures i < j < |nodes|
    ensures k == PairPosition(|nodes|, i, j)
    ensures MeshLinks(nodes)[k] == Link(nodes[i].id, nodes[j].id)
  {
    i, j := MeshFromInverse(nodes, 0, k);
  }

  /** Row-major positions follow the lexicographic order of (i, j). */
  lemma PairPositionOrder(n: nat, i: nat, j: nat, i': nat, j': nat)
    requires i < j < n && i' < j' < n
    requires i < i' || (i == i' && j < j')
    ensures PairPosition(n, i, j) < PairPosition(n, i', j')
  {
    if i < i' {
      TriMonotone(n - i', n - i - 1);
      assert Tri(n - i) == Tri(n - i - 1) + (n - i - 1);
    }
  }

  /** When ids grow along the list, the mesh links are strictly sorted by
      (source, target): the order is fixed and no link repeats. */
  lemma MeshSorted(nodes: seq<NodeData>)
    requires IdsIncreasing(nodes)
    ensures StrictlySorted(MeshLinks(nodes))
  {
    var m, n := MeshLinks(nodes), |nodes|;
    forall k, l | 0 <= k < l < |m| ensures LexLess(m[k], m[l]) {
      var i, j := MeshLinkInverse(nodes, k);
      var i', j' := MeshLinkInverse(nodes, l);
      if i' < i || (i' == i && j' < j) {
        PairPositionOrder(n, i', j', i, j);
      }
    }
  }

  /** With distinct ids, no mesh link joins a node to itself and no two mesh
      links join the same two nodes. */
  lemma MeshNoSelfOrDuplicate(nodes: seq<NodeData>)
    requires DistinctIds(nodes)
    ensures forall k :: 0 <= k < |MeshLinks(nodes)| ==>
      MeshLinks(nodes)[k].source != MeshLinks(nodes)[k].target
    ensures forall k, l :: 0 <= k < l < |MeshLinks(nodes)| ==>
      !SameUnorderedPair(MeshLinks(nodes)[k], MeshLinks(nodes)[l])
  {
    var m, n := MeshLinks(nodes), |nodes|;
    forall k | 0 <= k < |m| ensures m[k].source != m[k].target {
      var i, j := MeshLinkInverse(nodes, k);
    }
    forall k, l | 0 <= k < l < |m| ensures !SameUnorderedPair(m[k], m[l]) {
      var i, j := MeshLinkInverse(nodes, k);
      var i', j' := MeshLinkInverse(nodes, l);
      if i < i' || (i == i' && j < j') {
        PairPositionOrder(n, i, j, i', j');
      } else if i' < i || (i' == i && j' < j) {
        PairPositionOrder(n, i', j', i, j);
      }
    }
  }

  // ---------------------------------------------------------------------------
  // Spoke mode

  /** When the first node has id 0 (as in the view), the literal 0 is the hub:
      link k joins the first node to node k + 1. */
  lemma SpokeHubIsFirstNode(nodes: seq<NodeData>)
    requires |nodes| >= 1 && nodes[0].id == 0
    ensures forall k :: 0 <= k < |SpokeLinks(nodes)| ==>
      SpokeLinks(nodes)[k] == Link(nodes[0].id, nodes[k + 1].id)
  {
  }

  /** When ids grow from 0, spoke links are strictly sorted and none is a self-link. */
  lemma SpokeSortedNoSelf(nodes: seq<NodeData>)
    requires IdsIncreasing(nodes)
    requires |nodes| >= 1 && nodes[0].id == 0
    ensures StrictlySorted(SpokeLinks(nodes))
    ensures forall k :: 0 <= k < |SpokeLinks(nodes)| ==>
      SpokeLinks(nodes)[k].source != SpokeLinks(nodes)[k].target
  {
  }

  lemma CanonicalIdsIncreasing(nodes: seq<NodeData>)
    requires Canonical(nodes)
    ensures IdsIncreasing(nodes) && DistinctIds(nodes)
  {
  }
}
