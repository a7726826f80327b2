/** The mutable graph. Every lookup goes through the adjacency index; every contract is
    stated on the two public lists. */
module GraphModels {
  import opened Outcomes
  import opened Ordering
  import opened Graphs

  /** What has to hold of a graph that was only ever grown by its own methods. */
  ghost predicate Grown(g: Snapshot, edgeId: EdgeIdFn) {
    && (forall i, j | 0 <= i < j < |g.nodes| :: g.nodes[i].id != g.nodes[j].id)
    && (forall i, j | 0 <= i < j < |g.edges| :: g.edges[i].id != g.edges[j].id)
    && (forall e | e in g.edges :: e.srcId in NodeIds(g.nodes) && e.dstId in NodeIds(g.nodes))
    && (forall e | e in g.edges :: e.id == edgeId(e.kind, e.srcId, e.dstId, e.attrs))
  }

  // --- Insertion on the lists ---------------------------------------------------

  function AddNodeTo(g: Snapshot, node: GraphNode): Snapshot {
    if node.id in NodeIds(g.nodes) then g else g.(nodes := g.nodes + [node])
  }

  /** `e` has the id, and no earlier edge does. */
  ghost predicate IsFirstEdge(edges: seq<GraphEdge>, id: string, e: GraphEdge) {
    exists k :: 0 <= k < |edges| && edges[k] == e && e.id == id && forall j | 0 <= j < k :: edges[j].id != id
  }

  lemma FirstEdgeLater(edges: seq<GraphEdge>, id: string, e: GraphEdge)
    requires edges != [] && edges[0].id != id && IsFirstEdge(edges[1..], id, e)
    ensures IsFirstEdge(edges, id, e)
  {
    var k :| 0 <= k < |edges[1..]| && edges[1..][k] == e && e.id == id && forall j | 0 <= j < k :: edges[1..][j].id != id;
    assert edges[k + 1] == e;
    forall j | 0 <= j < k + 1 ensures edges[j].id != id {
      assert j > 0 ==> edges[j] == edges[1..][j - 1];
    }
  }

  /** The first edge with this id. */
  function EdgeById(edges: seq<GraphEdge>, id: string): (e: GraphEdge)
    requires id in EdgeIds(edges)
    ensures IsFirstEdge(edges, id, e)
  {
    if edges[0].id == id then edges[0]
    else
      assert edges == [edges[0]] + edges[1..];
      var e := EdgeById(edges[1..], id);
      FirstEdgeLater(edges, id, e);
      e
  }

  function EdgeOf(edgeId: EdgeIdFn, kind: string, srcId: string, dstId: string, attrs: Attrs): GraphEdge {
    GraphEdge(edgeId(kind, srcId, dstId, attrs), kind, srcId, dstId, attrs)
  }

  /** The id of the first endpoint that is not a node, the source tried first. */
  function MissingEnd(g: Snapshot, srcId: string, dstId: string): Option<string> {
    if srcId !in NodeIds(g.nodes) then Some(srcId)
    else if dstId !in NodeIds(g.nodes) then Some(dstId)
    else None
  }

  /** What an insertion does to the list of edges, and what it answers. */
  ghost predicate AddsEdge(nodes: seq<GraphNode>, before: seq<GraphEdge>, after: seq<GraphEdge>, edgeId: EdgeIdFn,
                           kind: string, srcId: string, dstId: string, attrs: Attrs, r: Result<GraphEdge, GraphError>) {
    if forall n | n in nodes :: n.id != srcId then after == before && r == Err(NodeNotFound(srcId))
    else if forall n | n in nodes :: n.id != dstId then after == before && r == Err(NodeNotFound(dstId))
    else
      var id := edgeId(kind, srcId, dstId, attrs);
      if exists e :: e in before && e.id == id then after == before && r.Ok? && IsFirstEdge(before, id, r.value)
      else r == Ok(GraphEdge(id, kind, srcId, dstId, attrs)) && after == before + [r.value]
  }

  function AddEdgeTo(g: Snapshot, edge: GraphEdge): Snapshot {
    if MissingEnd(g, edge.srcId, edge.dstId).Some? || edge.id in EdgeIds(g.edges) then g
    else g.(edges := g.edges + [edge])
  }

  function AddNodes(g: Snapshot, nodes: seq<GraphNode>): Snapshot {
    if nodes == [] then g else AddNodeTo(AddNodes(g, nodes[..|nodes| - 1]), nodes[|nodes| - 1])
  }

  datatype Insertion = Insertion(result: Snapshot, error: Option<GraphError>)

  /** Re-inserts one edge under a freshly derived id, unless an earlier one failed. */
  function InsertEdge(before: Insertion, edgeId: EdgeIdFn, e: GraphEdge): Insertion {
    if before.error.Some? then before
    else
      match MissingEnd(before.result, e.srcId, e.dstId)
      case Some(id) => before.(error := Some(NodeNotFound(id)))
      case None => before.(result := AddEdgeTo(before.result, EdgeOf(edgeId, e.kind, e.srcId, e.dstId, e.attrs)))
  }

  /** Re-inserts edges in order, up to the first dangling one. */
  function AddEdges(g: Snapshot, edgeId: EdgeIdFn, edges: seq<GraphEdge>): Insertion {
    if edges == [] then Insertion(g, None)
    else InsertEdge(AddEdges(g, edgeId, edges[..|edges| - 1]), edgeId, edges[|edges| - 1])
  }

  lemma AddNodesNext(g: Snapshot, nodes: seq<GraphNode>, i: nat)
    requires i < |nodes|
    ensures AddNodes(g, nodes[..i + 1]) == AddNodeTo(AddNodes(g, nodes[..i]), nodes[i])
  {
    assert nodes[..i + 1][..i] == nodes[..i];
  }

  lemma AddEdgesNext(g: Snapshot, edgeId: EdgeIdFn, edges: seq<GraphEdge>, i: nat)
    requires i < |edges|
    ensures AddEdges(g, edgeId, edges[..i + 1]) == InsertEdge(AddEdges(g, edgeId, edges[..i]), edgeId, edges[i])
  {
    assert edges[..i + 1][..i] == edges[..i];
  }

  function Merged(g: Snapshot, edgeId: EdgeIdFn, other: Snapshot): Insertion {
    AddEdges(AddNodes(g, other.nodes), edgeId, other.edges)
  }

  // --- Sorting -----------------------------------------------------------------------

  function NodeKey(n: GraphNode): Key {
    [n.id]
  }

  function EdgeKey(e: GraphEdge): Key {
    [e.kind, e.srcId, e.dstId, e.id]
  }

  ghost predicate NodeNotAfter(x: GraphNode, y: GraphNode) {
    x.id == y.id || TextBefore(x.id, y.id)
  }

  /** Edges compare by kind, then by source, then by target, and by id in the end. */
  ghost predicate EdgeNotAfter(x: GraphEdge, y: GraphEdge) {
    if x.kind != y.kind then TextBefore(x.kind, y.kind)
    else if x.srcId != y.srcId then TextBefore(x.srcId, y.srcId)
    else if x.dstId != y.dstId then TextBefore(x.dstId, y.dstId)
    else x.id == y.id || TextBefore(x.id, y.id)
  }

  lemma NodeKeyNotLess(x: GraphNode, y: GraphNode)
    requires !KeyLess(NodeKey(y), NodeKey(x))
    ensures NodeNotAfter(x, y)
  {
    hide StringLess, TextBefore;
    TextOrder(y.id, x.id);
    assert NodeKey(x) == [x.id] + [] && NodeKey(y) == [y.id] + [];
    KeyLessNext(y.id, [], x.id, []);
  }

  lemma EdgeKeyNotLess(x: GraphEdge, y: GraphEdge)
    requires !KeyLess(EdgeKey(y), EdgeKey(x))
    ensures EdgeNotAfter(x, y)
  {
    hide StringLess, TextBefore, KeyLess;
    TextOrder(y.kind, x.kind);
    TextOrder(y.srcId, x.srcId);
    TextOrder(y.dstId, x.dstId);
    TextOrder(y.id, x.id);
    KeyLessNext(y.kind, [y.srcId] + ([y.dstId] + ([y.id] + [])), x.kind, [x.srcId] + ([x.dstId] + ([x.id] + [])));
    KeyLessNext(y.srcId, [y.dstId] + ([y.id] + []), x.srcId, [x.dstId] + ([x.id] + []));
    KeyLessNext(y.dstId, [y.id] + [], x.dstId, [x.id] + []);
    KeyLessNext(y.id, [], x.id, []);
    assert EdgeKey(x) == [x.kind] + ([x.srcId] + ([x.dstId] + ([x.id] + [])));
    assert EdgeKey(y) == [y.kind] + ([y.srcId] + ([y.dstId] + ([y.id] + [])));
  }

  lemma TextOrder(a: string, b: string)
    ensures a == b || StringLess(a, b) || TextBefore(b, a)
  {
    StringLessMeaning(b, a);
    var charLess := (x: char, y: char) => x < y;
    assert StrictTotal(charLess);
    LexTotal(charLess, a, b);
  }

  /** `sorted` ascends: nodes by id, edges by kind, source, target and id. */
  lemma SortedAscends(g: Snapshot)
    ensures var s := SortedSnapshot(g);
      && (forall i, j | 0 <= i < j < |s.nodes| :: NodeNotAfter(s.nodes[i], s.nodes[j]))
      && (forall i, j | 0 <= i < j < |s.edges| :: EdgeNotAfter(s.edges[i], s.edges[j]))
  {
    hide KeyLess, NodeNotAfter, EdgeNotAfter, NodeKey, EdgeKey, SortByKey;
    KeyOrder();
    SortMeaning(NodeKey, KeyLess, g.nodes);
    SortMeaning(EdgeKey, KeyLess, g.edges);
    var s := SortedSnapshot(g);
    forall i, j | 0 <= i < j < |s.nodes| ensures NodeNotAfter(s.nodes[i], s.nodes[j]) {
      NodeKeyNotLess(s.nodes[i], s.nodes[j]);
    }
    forall i, j | 0 <= i < j < |s.edges| ensures EdgeNotAfter(s.edges[i], s.edges[j]) {
      EdgeKeyNotLess(s.edges[i], s.edges[j]);
    }
  }

  function SortedSnapshot(g: Snapshot): Snapshot {
    Snapshot(SortByKey(NodeKey, KeyLess, g.nodes), SortByKey(EdgeKey, KeyLess, g.edges))
  }

  // --- The index ------------------------------------------------------------------

  /** The four index structures of a graph. */
  datatype Index = Index(
    byId: map<string, GraphNode>,
    outgoing: map<string, seq<GraphEdge>>,
    incoming: map<string, seq<GraphEdge>>,
    edgeIds: set<string>)

  /** Every lookup in the index gives what a scan of the lists gives, order included. */
  ghost predicate Covers(index: Index, nodes: seq<GraphNode>, edges: seq<GraphEdge>) {
    && index.byId == NodeMap(nodes)
    && index.edgeIds == EdgeIds(edges)
    && (forall id :: Lookup(index.outgoing, id) == EdgesFrom(edges, id))
    && (forall id :: Lookup(index.incoming, id) == EdgesInto(edges, id))
  }

  /** `index.get(id, [])`. */
  function Lookup(index: map<string, seq<GraphEdge>>, id: string): seq<GraphEdge> {
    if id in index then index[id] else []
  }

  /** `index.setdefault(id, [])`. */
  function SetDefault(index: map<string, seq<GraphEdge>>, id: string): (r: map<string, seq<GraphEdge>>)
    ensures forall k :: Lookup(r, k) == Lookup(index, k)
  {
    if id in index then index else index[id := []]
  }

  /** `index.setdefault(id, []).append(e)`. */
  function Append(index: map<string, seq<GraphEdge>>, id: string, e: GraphEdge): (r: map<string, seq<GraphEdge>>)
    ensures forall k :: Lookup(r, k) == Lookup(index, k) + if k == id then [e] else []
  {
    index[id := Lookup(index, id) + [e]]
  }

  function IndexNode(index: Index, n: GraphNode): Index {
    index.(byId := index.byId[n.id := n],
           outgoing := SetDefault(index.outgoing, n.id),
           incoming := SetDefault(index.incoming, n.id))
  }

  function IndexEdge(index: Index, e: GraphEdge): Index {
    index.(edgeIds := index.edgeIds + {e.id},
           outgoing := Append(index.outgoing, e.srcId, e),
           incoming := Append(index.incoming, e.dstId, e))
  }

  lemma EdgeIdsAppend(edges: seq<GraphEdge>, e: GraphEdge)
    ensures EdgeIds(edges + [e]) == EdgeIds(edges) + {e.id}
  {
    assert forall m :: m in edges + [e] <==> m in edges || m == e;
  }

  lemma EdgesFromAppend(edges: seq<GraphEdge>, e: GraphEdge, id: string)
    ensures EdgesFrom(edges + [e], id) == EdgesFrom(edges, id) + if e.srcId == id then [e] else []
  {
    assert (edges + [e])[..|edges|] == edges;
  }

  lemma EdgesIntoAppend(edges: seq<GraphEdge>, e: GraphEdge, id: string)
    ensures EdgesInto(edges + [e], id) == EdgesInto(edges, id) + if e.dstId == id then [e] else []
  {
    assert (edges + [e])[..|edges|] == edges;
  }

  lemma IndexEdgeCovers(index: Index, nodes: seq<GraphNode>, edges: seq<GraphEdge>, e: GraphEdge)
    requires Covers(index, nodes, edges)
    ensures Covers(IndexEdge(index, e), nodes, edges + [e])
  {
    EdgeIdsAppend(edges, e);
    var grown := IndexEdge(index, e);
    forall id ensures Lookup(grown.outgoing, id) == EdgesFrom(edges + [e], id) {
      EdgesFromAppend(edges, e, id);
    }
    forall id ensures Lookup(grown.incoming, id) == EdgesInto(edges + [e], id) {
      EdgesIntoAppend(edges, e, id);
    }
  }

  function IndexNodes(nodes: seq<GraphNode>): Index {
    if nodes == [] then Index(map[], map[], map[], {})
    else IndexNode(IndexNodes(nodes[..|nodes| - 1]), nodes[|nodes| - 1])
  }

  function IndexOf(nodes: seq<GraphNode>, edges: seq<GraphEdge>): Index {
    if edges == [] then IndexNodes(nodes)
    else IndexEdge(IndexOf(nodes, edges[..|edges| - 1]), edges[|edges| - 1])
  }

  /** The index that a full build produces answers as a scan of the lists. */
  lemma {:induction false} IndexOfCovers(nodes: seq<GraphNode>, edges: seq<GraphEdge>)
    ensures Covers(IndexOf(nodes, edges), nodes, edges)
    decreases |edges|, |nodes|
  {
    if edges != [] {
      var front, last := edges[..|edges| - 1], edges[|edges| - 1];
      assert edges == front + [last];
      IndexOfCovers(nodes, front);
      IndexEdgeCovers(IndexOf(nodes, front), nodes, front, last);
    } else if nodes != [] {
      var front, last := nodes[..|nodes| - 1], nodes[|nodes| - 1];
      assert nodes == front + [last];
      IndexOfCovers(front, []);
    }
  }

  /** Nothing after the first dangling edge is inserted. */
  lemma {:induction false} AddEdgesStops(g: Snapshot, edgeId: EdgeIdFn, edges: seq<GraphEdge>, i: nat)
    requires i < |edges| && AddEdges(g, edgeId, edges[..i + 1]).error.Some?
    ensures AddEdges(g, edgeId, edges) == AddEdges(g, edgeId, edges[..i + 1])
    decreases |edges|
  {
    if i + 1 == |edges| {
      assert edges[..i + 1] == edges;
    } else {
      var front := edges[..|edges| - 1];
      assert front[..i + 1] == edges[..i + 1];
      AddEdgesStops(g, edgeId, front, i);
    }
  }

  /** The edge is in the graph as an insertion leaves it. */
  ghost predicate Inserted(g: Snapshot, edgeId: EdgeIdFn, e: GraphEdge) {
    e in g.edges && MissingEnd(g, e.srcId, e.dstId).None? && e == EdgeOf(edgeId, e.kind, e.srcId, e.dstId, e.attrs)
  }

  /** One insertion adds at most one edge, and what was inserted stays. */
  ghost predicate KeepsInserted(g: Snapshot, after: Snapshot, edgeId: EdgeIdFn) {
    && after.nodes == g.nodes
    && (after.edges == g.edges ||
        (|after.edges| == |g.edges| + 1 && g.edges <= after.edges && Inserted(after, edgeId, after.edges[|g.edges|])))
    && forall x :: Inserted(g, edgeId, x) ==> Inserted(after, edgeId, x)
  }

  /** The first `i` of the edges; an `i` past the end counts edges that the loop appended. */
  function Upto(edges: seq<GraphEdge>, i: nat): seq<GraphEdge> {
    if i < |edges| then edges[..i] else edges
  }

  lemma NothingInserted(g: Snapshot, edgeId: EdgeIdFn, edges: seq<GraphEdge>)
    ensures AddEdges(g, edgeId, Upto(edges, 0)) == Insertion(g, None)
  {
    assert Upto(edges, 0) == [];
  }

  lemma InsertNext(start: Snapshot, edgeId: EdgeIdFn, edges: seq<GraphEdge>, i: nat, g: Snapshot, e: GraphEdge)
    requires Insertion(g, None) == AddEdges(start, edgeId, Upto(edges, i))
    requires if i < |edges| then e == edges[i] else Inserted(g, edgeId, e)
    ensures var next := InsertEdge(Insertion(g, None), edgeId, e);
      next == AddEdges(start, edgeId, if next.error.Some? then edges else Upto(edges, i + 1))
  {
    if i < |edges| {
      AddEdgesNext(start, edgeId, edges, i);
      assert edges[..|edges|] == edges;
      if InsertEdge(Insertion(g, None), edgeId, e).error.Some? {
        AddEdgesStops(start, edgeId, edges, i);
      }
    }
  }

  lemma {:induction false} AddOwnNodes(g: Snapshot, i: nat)
    requires i <= |g.nodes|
    ensures AddNodes(g, g.nodes[..i]) == g
  {
    if i > 0 {
      AddOwnNodes(g, i - 1);
      AddNodesNext(g, g.nodes, i - 1);
    }
  }

  class Graph {
    const edgeId: EdgeIdFn

    var meta: GraphMeta
    var nodes: seq<GraphNode>
    var edges: seq<GraphEdge>
    var index: Index
    var indexed: bool

    ghost function View(): Snapshot
      reads this
    {
      Snapshot(nodes, edges)
    }

    ghost predicate Valid()
      reads this
    {
      indexed ==> Covers(index, nodes, edges)
    }

    /** A graph as the constructor or a JSON payload makes it: any lists, no index yet. */
    constructor (edgeId: EdgeIdFn, meta: GraphMeta, nodes: seq<GraphNode>, edges: seq<GraphEdge>)
      ensures Valid() && View() == Snapshot(nodes, edges) && this.meta == meta && this.edgeId == edgeId
    {
      this.edgeId := edgeId;
      this.meta, this.nodes, this.edges := meta, nodes, edges;
      index, indexed := Index(map[], map[], map[], {}), false;
    }

    method EnsureIndex()
      requires Valid()
      modifies `index, `indexed
      ensures Valid() && indexed
    {
      if !indexed {
        BuildIndex();
        IndexOfCovers(nodes, edges);
        indexed := true;
      }
    }

    method BuildIndex()
      modifies `index
      ensures index == IndexOf(nodes, edges)
    {
      index := Index(map[], map[], map[], {});
      for i := 0 to |nodes|
        invariant index == IndexNodes(nodes[..i])
      {
        assert nodes[..i + 1][..i] == nodes[..i];
        index := IndexNode(index, nodes[i]);
      }
      assert nodes[..|nodes|] == nodes;
      for i := 0 to |edges|
        invariant index == IndexOf(nodes, edges[..i])
      {
        assert edges[..i + 1][..i] == edges[..i];
        index := IndexEdge(index, edges[i]);
      }
      assert edges[..|edges|] == edges;
    }

    method AddNode(node: GraphNode) returns (kept: GraphNode)
      requires Valid()
      modifies `nodes, `index, `indexed
      ensures Valid() && View() == AddNodeTo(old(View()), node)
      ensures node.id in NodeMap(nodes) && kept == NodeMap(nodes)[node.id]
      ensures if exists n :: n in old(nodes) && n.id == node.id then nodes == old(nodes) && IsLast(nodes, kept) && kept.id == node.id
              else nodes == old(nodes) + [node] && kept == node
    {
      EnsureIndex();
      NodeMapMeaning(nodes);
      if node.id in index.byId {
        return index.byId[node.id];
      }
      nodes := nodes + [node];
      index := IndexNode(index, node);
      kept := node;
      NodeMapMeaning(nodes);
    }

    method AddEdge(kind: string, srcId: string, dstId: string, attrs: Option<Attrs>)
      returns (r: Result<GraphEdge, GraphError>)
      requires Valid()
      modifies `edges, `index, `indexed
      ensures Valid() && View() == AddEdgeTo(old(View()), EdgeOf(edgeId, kind, srcId, dstId, attrs.GetOr(map[])))
      ensures match MissingEnd(old(View()), srcId, dstId)
              case Some(id) => r == Err(NodeNotFound(id))
              case None =>
                var edge := EdgeOf(edgeId, kind, srcId, dstId, attrs.GetOr(map[]));
                r == Ok(if edge.id in EdgeIds(old(edges)) then EdgeById(old(edges), edge.id) else edge)
      ensures AddsEdge(nodes, old(edges), edges, edgeId, kind, srcId, dstId, if attrs.Some? then attrs.value else map[], r)
    {
      EnsureIndex();
      NodeMapMeaning(nodes);
      if srcId !in index.byId {
        return Err(NodeNotFound(srcId));
      }
      if dstId !in index.byId {
        return Err(NodeNotFound(dstId));
      }
      var edge := EdgeOf(edgeId, kind, srcId, dstId, attrs.GetOr(map[]));
      if edge.id in index.edgeIds {
        return Ok(EdgeById(edges, edge.id));
      }
      IndexEdgeCovers(index, nodes, edges, edge);
      edges := edges + [edge];
      index := IndexEdge(index, edge);
      r := Ok(edge);
    }

    method HasNode(id: string) returns (b: bool)
      requires Valid()
      modifies `index, `indexed
      ensures Valid() && indexed && b == (id in NodeIds(nodes))
    {
      EnsureIndex();
      NodeMapMeaning(nodes);
      b := id in index.byId;
    }

    method OutEdges(id: string, kind: Option<string>) returns (r: seq<GraphEdge>)
      requires Valid()
      modifies `index, `indexed
      ensures Valid() && indexed && r == OfKind(EdgesFrom(edges, id), kind)
      ensures AreOutEdges(edges, id, kind, r)
    {
      OutEdgesMeaning(edges, id, kind);
      EnsureIndex();
      r := OfKind(Lookup(index.outgoing, id), kind);
    }

    method InEdges(id: string, kind: Option<string>) returns (r: seq<GraphEdge>)
      requires Valid()
      modifies `index, `indexed
      ensures Valid() && indexed && r == OfKind(EdgesInto(edges, id), kind)
      ensures AreInEdges(edges, id, kind, r)
    {
      InEdgesMeaning(edges, id, kind);
      EnsureIndex();
      r := OfKind(Lookup(index.incoming, id), kind);
    }

    method NeighborNodes(id: string, kind: Option<string>, direction: Direction)
      returns (r: Result<seq<GraphNode>, GraphError>)
      requires Valid()
      modifies `index, `indexed
      ensures Valid()
      ensures r == if direction.Unknown? then Err(InvalidDirection(direction.text))
                   else Ok(Neighbors(View(), id, kind, direction))
      ensures r.Ok? ==> AreNeighbors(View(), id, kind, direction, r.value)
    {
      hide AreNeighbors, AreOutEdges, AreInEdges;
      NeighborsInOrder(View(), id, kind, direction);
      EnsureIndex();
      match direction
      case Out =>
        var out := OutEdges(id, kind);
        r := Ok(FarEnds(index.byId, out, true));
      case In =>
        var into := InEdges(id, kind);
        r := Ok(FarEnds(index.byId, into, false));
      case Both =>
        var out := OutEdges(id, kind);
        var into := InEdges(id, kind);
        r := Ok(FirstOfEachId(FarEnds(index.byId, out, true) + FarEnds(index.byId, into, false)));
      case Unknown(text) =>
        r := Err(InvalidDirection(text));
    }

    method MergeNodes(other: Graph)
      requires Valid()
      modifies `nodes, `index, `indexed
      ensures Valid() && View() == AddNodes(old(View()), old(other.nodes))
      ensures other.View() == old(other.View())
    {
      hide Covers, NodeIds, EdgeIds;
      ghost var mine, theirs := View(), other.View();
      for i := 0 to |other.nodes|
        invariant Valid() && View() == AddNodes(mine, theirs.nodes[..i]) && other.View() == theirs
      {
        AddNodesNext(mine, theirs.nodes, i);
        AddOwnNodes(theirs, i + 1);
        var _ := AddNode(other.nodes[i]);
      }
      assert theirs.nodes[..|theirs.nodes|] == theirs.nodes;
    }

    /** One round of the loop over the other graph's edges. */
    method MergeEdge(e: GraphEdge) returns (error: Option<GraphError>)
      requires Valid()
      modifies `edges, `index, `indexed
      ensures Valid() && Insertion(View(), error) == InsertEdge(Insertion(old(View()), None), edgeId, e)
      ensures KeepsInserted(old(View()), View(), edgeId)
    {
      var r := AddEdge(e.kind, e.srcId, e.dstId, Some(e.attrs));
      error := if r.Err? then Some(r.error) else None;
    }

    method MergeEdges(other: Graph) returns (error: Option<GraphError>)
      requires Valid()
      modifies `edges, `index, `indexed
      ensures Valid() && Insertion(View(), error) == AddEdges(old(View()), edgeId, old(other.edges))
    {
      hide Covers, Inserted, InsertEdge, AddEdges;
      ghost var start, theirs := View(), other.edges;
      NothingInserted(start, edgeId, theirs);
      var i := 0;
      while i < |other.edges|
        invariant Valid() && theirs <= other.edges && i <= |other.edges|
        invariant other != this ==> other.edges == theirs
        invariant Insertion(View(), None) == AddEdges(start, edgeId, Upto(theirs, i))
        invariant forall k | |theirs| <= k < |other.edges| :: Inserted(View(), edgeId, other.edges[k])
        decreases if i < |theirs| then |theirs| - i else 0, |other.edges| - i
      {
        InsertNext(start, edgeId, theirs, i, View(), other.edges[i]);
        error := MergeEdge(other.edges[i]);
        if error.Some? {
          return;
        }
        i := i + 1;
      }
      error := None;
    }

    /** Inserts the other graph's nodes and edges; stops at its first dangling edge, with
        everything before that edge kept. The other graph may be this one: its lists are then
        walked while they grow. */
    method Merge(other: Graph) returns (error: Option<GraphError>)
      requires Valid()
      modifies `nodes, `edges, `index, `indexed
      ensures Valid() && Insertion(View(), error) == Merged(old(View()), edgeId, old(other.View()))
    {
      MergeNodes(other);
      error := MergeEdges(other);
    }
  }

  /** `sorted`: a new graph with the same meta and the two lists in key order. */
  method Sorted(graph: Graph) returns (r: Graph)
    ensures fresh(r) && r.Valid() && r.meta == graph.meta && r.edgeId == graph.edgeId
    ensures r.View() == SortedSnapshot(graph.View())
    ensures forall i, j | 0 <= i < j < |r.nodes| :: NodeNotAfter(r.nodes[i], r.nodes[j])
    ensures forall i, j | 0 <= i < j < |r.edges| :: EdgeNotAfter(r.edges[i], r.edges[j])
    ensures multiset(r.nodes) == multiset(graph.nodes) && multiset(r.edges) == multiset(graph.edges)
  {
    hide NodeNotAfter, EdgeNotAfter;
    SortedAscends(graph.View());
    KeyOrder();
    SortMeaning(NodeKey, KeyLess, graph.nodes);
    SortMeaning(EdgeKey, KeyLess, graph.edges);
    var nodes, edges := SortByKey(NodeKey, KeyLess, graph.nodes), SortByKey(EdgeKey, KeyLess, graph.edges);
    r := new Graph(graph.edgeId, graph.meta, nodes, edges);
  }

  /** `from_iterables`: inserts the nodes, then the edges under fresh ids. */
  method FromIterables(edgeId: EdgeIdFn, meta: GraphMeta, nodes: seq<GraphNode>, edges: seq<GraphEdge>)
    returns (r: Graph, error: Option<GraphError>)
    ensures fresh(r) && r.Valid() && r.meta == meta
    ensures Insertion(r.View(), error) == Merged(Snapshot([], []), edgeId, Snapshot(nodes, edges))
  {
    r := new Graph(edgeId, meta, [], []);
    var given := new Graph(edgeId, meta, nodes, edges);
    error := r.Merge(given);
  }
}
