/** What holds of graphs over whole histories of calls: the structure they keep, and the
    laws of `merge` and `sorted`. */
module GraphLaws {
  import opened Outcomes
  import opened Sequences
  import opened Ordering
  import opened Graphs
  import opened GraphModels

  // --- Histories ------------------------------------------------------------------------

  datatype Call =
    | AddNodeCall(node: GraphNode)
    | AddEdgeCall(kind: string, srcId: string, dstId: string, attrs: Attrs)
    | MergeCall(other: Snapshot)

  function Apply(g: Snapshot, edgeId: EdgeIdFn, call: Call): Snapshot {
    match call
    case AddNodeCall(node) => AddNodeTo(g, node)
    case AddEdgeCall(kind, srcId, dstId, attrs) => AddEdgeTo(g, EdgeOf(edgeId, kind, srcId, dstId, attrs))
    case MergeCall(other) => Merged(g, edgeId, other).result
  }

  function History(g: Snapshot, edgeId: EdgeIdFn, calls: seq<Call>): Snapshot {
    if calls == [] then g else Apply(History(g, edgeId, calls[..|calls| - 1]), edgeId, calls[|calls| - 1])
  }

  lemma AddNodeKeepsGrown(g: Snapshot, edgeId: EdgeIdFn, node: GraphNode)
    requires Grown(g, edgeId)
    ensures Grown(AddNodeTo(g, node), edgeId)
  {
    NodeIdsAppend(g.nodes, node);
    assert forall i | 0 <= i < |g.nodes| :: g.nodes[i].id in NodeIds(g.nodes);
  }

  lemma AddEdgeKeepsGrown(g: Snapshot, edgeId: EdgeIdFn, kind: string, srcId: string, dstId: string, attrs: Attrs)
    requires Grown(g, edgeId)
    ensures Grown(AddEdgeTo(g, EdgeOf(edgeId, kind, srcId, dstId, attrs)), edgeId)
  {
    assert forall i | 0 <= i < |g.edges| :: g.edges[i].id in EdgeIds(g.edges);
  }

  lemma {:induction false} AddNodesKeepsGrown(g: Snapshot, edgeId: EdgeIdFn, nodes: seq<GraphNode>)
    requires Grown(g, edgeId)
    ensures Grown(AddNodes(g, nodes), edgeId)
  {
    hide Grown, AddNodeTo;
    if nodes != [] {
      AddNodesKeepsGrown(g, edgeId, nodes[..|nodes| - 1]);
      AddNodeKeepsGrown(AddNodes(g, nodes[..|nodes| - 1]), edgeId, nodes[|nodes| - 1]);
    }
  }

  lemma {:induction false} AddEdgesKeepsGrown(g: Snapshot, edgeId: EdgeIdFn, edges: seq<GraphEdge>)
    requires Grown(g, edgeId)
    ensures Grown(AddEdges(g, edgeId, edges).result, edgeId)
  {
    hide Grown, AddEdgeTo, EdgeOf;
    if edges != [] {
      var e := edges[|edges| - 1];
      AddEdgesKeepsGrown(g, edgeId, edges[..|edges| - 1]);
      AddEdgeKeepsGrown(AddEdges(g, edgeId, edges[..|edges| - 1]).result, edgeId, e.kind, e.srcId, e.dstId, e.attrs);
    }
  }

  /** Whatever is called, in whatever order, on a graph that starts empty: node ids and edge
      ids stay unique, no edge dangles, and every edge carries its derived id. */
  lemma {:induction false} GrownFromEmpty(edgeId: EdgeIdFn, calls: seq<Call>)
    ensures Grown(History(Snapshot([], []), edgeId, calls), edgeId)
  {
    if calls != [] {
      var before := History(Snapshot([], []), edgeId, calls[..|calls| - 1]);
      GrownFromEmpty(edgeId, calls[..|calls| - 1]);
      match calls[|calls| - 1]
      case AddNodeCall(node) => AddNodeKeepsGrown(before, edgeId, node);
      case AddEdgeCall(kind, srcId, dstId, attrs) => AddEdgeKeepsGrown(before, edgeId, kind, srcId, dstId, attrs);
      case MergeCall(other) =>
        AddNodesKeepsGrown(before, edgeId, other.nodes);
        AddEdgesKeepsGrown(AddNodes(before, other.nodes), edgeId, other.edges);
    }
  }

  // --- Sorting as a canonical form ------------------------------------------------------

  ghost predicate SameContents(a: Snapshot, b: Snapshot) {
    && (forall n :: n in a.nodes <==> n in b.nodes)
    && (forall e :: e in a.edges <==> e in b.edges)
  }

  /** Two grown graphs with the same nodes and edges sort to the same lists. */
  lemma SortedIsCanonical(a: Snapshot, b: Snapshot, edgeId: EdgeIdFn)
    requires Grown(a, edgeId) && Grown(b, edgeId) && SameContents(a, b)
    ensures SortedSnapshot(a) == SortedSnapshot(b)
  {
    KeyOrder();
    SortedSame(NodeKey, KeyLess, a.nodes, b.nodes);
    SortedSame(EdgeKey, KeyLess, a.edges, b.edges);
  }

  /** Sorting loses and invents nothing, so equal sorted forms mean equal contents. */
  lemma SortedKeepsContents(a: Snapshot)
    ensures SameContents(a, SortedSnapshot(a))
  {
    KeyOrder();
    SortKeepsElements(NodeKey, KeyLess, a.nodes);
    SortKeepsElements(EdgeKey, KeyLess, a.edges);
  }

  // --- Merging --------------------------------------------------------------------------

  /** What the two graphs share by id they share entirely. */
  ghost predicate AgreeOnShared(a: Snapshot, b: Snapshot) {
    && (forall n, m | n in a.nodes && m in b.nodes && n.id == m.id :: n == m)
    && (forall e, f | e in a.edges && f in b.edges && e.id == f.id :: e == f)
  }

  lemma {:induction false} AddNodesContents(g: Snapshot, nodes: seq<GraphNode>)
    requires forall n, m | n in g.nodes + nodes && m in g.nodes + nodes && n.id == m.id :: n == m
    ensures forall n :: n in AddNodes(g, nodes).nodes <==> n in g.nodes || n in nodes
    ensures AddNodes(g, nodes).edges == g.edges
  {
    if nodes != [] {
      var front, last := nodes[..|nodes| - 1], nodes[|nodes| - 1];
      assert nodes == front + [last];
      assert forall n :: n in g.nodes + nodes <==> n in g.nodes + front || n == last;
      AddNodesContents(g, front);
      var before := AddNodes(g, front);
      if last.id in NodeIds(before.nodes) {
        var n :| n in before.nodes && n.id == last.id;
        assert n in g.nodes + front;
      }
    }
  }

  lemma {:induction false} AddEdgesContents(g: Snapshot, edgeId: EdgeIdFn, edges: seq<GraphEdge>)
    requires forall e | e in edges ::
      e.srcId in NodeIds(g.nodes) && e.dstId in NodeIds(g.nodes) && e.id == edgeId(e.kind, e.srcId, e.dstId, e.attrs)
    requires forall e, f | e in g.edges + edges && f in g.edges + edges && e.id == f.id :: e == f
    ensures var r := AddEdges(g, edgeId, edges);
      && r.error == None
      && r.result.nodes == g.nodes
      && forall e :: e in r.result.edges <==> e in g.edges || e in edges
  {
    if edges != [] {
      var front, last := edges[..|edges| - 1], edges[|edges| - 1];
      assert edges == front + [last];
      assert forall e :: e in g.edges + edges <==> e in g.edges + front || e == last;
      AddEdgesContents(g, edgeId, front);
      var before := AddEdges(g, edgeId, front).result;
      assert EdgeOf(edgeId, last.kind, last.srcId, last.dstId, last.attrs) == last;
      if last.id in EdgeIds(before.edges) {
        var e :| e in before.edges && e.id == last.id;
        assert e in g.edges + front;
      }
    }
  }

  /** A merge of graphs that agree succeeds and has exactly what either had. */
  lemma MergeContents(a: Snapshot, b: Snapshot, edgeId: EdgeIdFn)
    requires Grown(a, edgeId) && Grown(b, edgeId) && AgreeOnShared(a, b)
    ensures var r := Merged(a, edgeId, b);
      && r.error == None
      && (forall n :: n in r.result.nodes <==> n in a.nodes || n in b.nodes)
      && (forall e :: e in r.result.edges <==> e in a.edges || e in b.edges)
  {
    AddNodesContents(a, b.nodes);
    var g := AddNodes(a, b.nodes);
    forall e | e in b.edges ensures e.srcId in NodeIds(g.nodes) && e.dstId in NodeIds(g.nodes) {
      assert NodeIds(b.nodes) <= NodeIds(g.nodes);
    }
    AddEdgesContents(g, edgeId, b.edges);
  }

  /** Up to the order of the lists, it does not matter which of two graphs is merged into
      which. */
  lemma MergeCommutes(a: Snapshot, b: Snapshot, edgeId: EdgeIdFn)
    requires Grown(a, edgeId) && Grown(b, edgeId) && AgreeOnShared(a, b)
    ensures SortedSnapshot(Merged(a, edgeId, b).result) == SortedSnapshot(Merged(b, edgeId, a).result)
  {
    hide Grown, AgreeOnShared;
    assert AgreeOnShared(b, a) by {
      AgreeSymmetric(a, b);
    }
    MergeContents(a, b, edgeId);
    MergeContents(b, a, edgeId);
    AddNodesKeepsGrown(a, edgeId, b.nodes);
    AddEdgesKeepsGrown(AddNodes(a, b.nodes), edgeId, b.edges);
    AddNodesKeepsGrown(b, edgeId, a.nodes);
    AddEdgesKeepsGrown(AddNodes(b, a.nodes), edgeId, a.edges);
    hide Merged;
    SortedIsCanonical(Merged(a, edgeId, b).result, Merged(b, edgeId, a).result, edgeId);
  }

  lemma AgreeSymmetric(a: Snapshot, b: Snapshot)
    requires AgreeOnShared(a, b)
    ensures AgreeOnShared(b, a)
  {}

  // --- Merging twice --------------------------------------------------------------------

  /** Everything `other` would insert is there already. */
  ghost predicate Absorbed(g: Snapshot, edgeId: EdgeIdFn, other: Snapshot) {
    && NodeIds(other.nodes) <= NodeIds(g.nodes)
    && forall e | e in other.edges :: EdgeAbsorbed(g, edgeId, e)
  }

  ghost predicate EdgeAbsorbed(g: Snapshot, edgeId: EdgeIdFn, e: GraphEdge) {
    && MissingEnd(g, e.srcId, e.dstId) == None
    && edgeId(e.kind, e.srcId, e.dstId, e.attrs) in EdgeIds(g.edges)
  }

  lemma {:induction false} AddNodesPresent(g: Snapshot, nodes: seq<GraphNode>)
    ensures NodeIds(AddNodes(g, nodes).nodes) == NodeIds(g.nodes) + NodeIds(nodes)
    ensures NodeIds(nodes) <= NodeIds(g.nodes) ==> AddNodes(g, nodes) == g
  {
    if nodes != [] {
      var front, last := nodes[..|nodes| - 1], nodes[|nodes| - 1];
      assert nodes == front + [last];
      NodeIdsAppend(front, last);
      AddNodesPresent(g, front);
      NodeIdsAppend(AddNodes(g, front).nodes, last);
    }
  }

  lemma {:induction false} AddEdgesPresent(g: Snapshot, edgeId: EdgeIdFn, edges: seq<GraphEdge>)
    requires forall e | e in edges :: EdgeAbsorbed(g, edgeId, e)
    ensures AddEdges(g, edgeId, edges) == Insertion(g, None)
  {
    if edges != [] {
      var e := edges[|edges| - 1];
      assert e in edges && EdgeAbsorbed(g, edgeId, e);
      AddEdgesPresent(g, edgeId, edges[..|edges| - 1]);
    }
  }

  lemma {:induction false} AddEdgesAbsorbs(g: Snapshot, edgeId: EdgeIdFn, edges: seq<GraphEdge>)
    requires AddEdges(g, edgeId, edges).error == None
    ensures AddEdges(g, edgeId, edges).result.nodes == g.nodes
    ensures forall e | e in edges :: EdgeAbsorbed(AddEdges(g, edgeId, edges).result, edgeId, e)
  {
    if edges != [] {
      var front, last := edges[..|edges| - 1], edges[|edges| - 1];
      assert edges == front + [last];
      AddEdgesAbsorbs(g, edgeId, front);
      var before := AddEdges(g, edgeId, front).result;
      EdgeIdsAppend(before.edges, EdgeOf(edgeId, last.kind, last.srcId, last.dstId, last.attrs));
    }
  }

  /** After a successful merge, merging the same graph again changes nothing. */
  lemma MergeTwice(a: Snapshot, b: Snapshot, edgeId: EdgeIdFn)
    requires Merged(a, edgeId, b).error == None
    ensures Merged(Merged(a, edgeId, b).result, edgeId, b) == Merged(a, edgeId, b)
  {
    var once := Merged(a, edgeId, b).result;
    AddNodesPresent(a, b.nodes);
    AddEdgesAbsorbs(AddNodes(a, b.nodes), edgeId, b.edges);
    AddNodesPresent(once, b.nodes);
    AddEdgesPresent(once, edgeId, b.edges);
  }
}
