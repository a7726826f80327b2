/** The in-memory multigraph: two public lists, and an adjacency index that is built
    lazily on the first lookup and kept in step by every later insertion.

    `Snapshot` and the functions over it are the plain reading of the two lists; the
    class answers from its index and is proved to agree with them, order included. */
module Graphs {
  import opened Outcomes
  import opened Digraphs
  import opened Sequences

  /** A JSON attribute value: only equality matters here. */
  type Value(==, !new)
  type Attrs = map<string, Value>

  datatype GraphNode = GraphNode(id: string, kind: string, name: Option<string>, attrs: Attrs)
  datatype GraphEdge = GraphEdge(id: string, kind: string, srcId: string, dstId: string, attrs: Attrs)

  datatype GraphMeta = GraphMeta(name: Option<string>, generatedAt: Option<string>, schemaVersion: int)

  /** The `direction` argument; any text but the three known ones is an error. */
  datatype Direction = Out | In | Both | Unknown(text: string)

  datatype GraphError = NodeNotFound(id: string) | InvalidDirection(text: string)

  /** How an edge id is derived from (kind, src, dst, attrs). It ends in a short digest
      of the attributes, so it is an arbitrary function, not assumed injective. */
  type EdgeIdFn = (string, string, string, Attrs) -> string

  datatype Snapshot = Snapshot(nodes: seq<GraphNode>, edges: seq<GraphEdge>)

  // --- Plain scans of the lists -------------------------------------------------

  function NodeIds(nodes: seq<GraphNode>): set<string> {
    set n | n in nodes :: n.id
  }

  lemma NodeIdsAppend(nodes: seq<GraphNode>, n: GraphNode)
    ensures NodeIds(nodes + [n]) == NodeIds(nodes) + {n.id}
  {
    assert forall m :: m in nodes + [n] <==> m in nodes || m == n;
  }

  function EdgeIds(edges: seq<GraphEdge>): set<string> {
    set e | e in edges :: e.id
  }

  /** Ids to nodes; of two nodes with one id the later wins. */
  function NodeMap(nodes: seq<GraphNode>): map<string, GraphNode> {
    if nodes == [] then map[]
    else
      var last := nodes[|nodes| - 1];
      NodeMap(nodes[..|nodes| - 1])[last.id := last]
  }

  function EdgesFrom(edges: seq<GraphEdge>, id: string): seq<GraphEdge> {
    if edges == [] then []
    else
      var last := edges[|edges| - 1];
      EdgesFrom(edges[..|edges| - 1], id) + if last.srcId == id then [last] else []
  }

  function EdgesInto(edges: seq<GraphEdge>, id: string): seq<GraphEdge> {
    if edges == [] then []
    else
      var last := edges[|edges| - 1];
      EdgesInto(edges[..|edges| - 1], id) + if last.dstId == id then [last] else []
  }

  function OfKind(edges: seq<GraphEdge>, kind: Option<string>): seq<GraphEdge> {
    if edges == [] then []
    else
      var last := edges[|edges| - 1];
      OfKind(edges[..|edges| - 1], kind) + if kind.None? || last.kind == kind.value then [last] else []
  }

  function FarEnd(e: GraphEdge, outward: bool): string {
    if outward then e.dstId else e.srcId
  }

  /** The nodes at the far ends of `edges`, dangling ends skipped. */
  function FarEnds(byId: map<string, GraphNode>, edges: seq<GraphEdge>, outward: bool): seq<GraphNode> {
    if edges == [] then []
    else
      var last := edges[|edges| - 1];
      var id := FarEnd(last, outward);
      FarEnds(byId, edges[..|edges| - 1], outward) + if id in byId then [byId[id]] else []
  }

  /** Keeps the first node of each id. */
  function FirstOfEachId(nodes: seq<GraphNode>): seq<GraphNode> {
    if nodes == [] then []
    else
      var last := nodes[|nodes| - 1];
      var front := FirstOfEachId(nodes[..|nodes| - 1]);
      if last.id in NodeIds(front) then front else front + [last]
  }

  /** Neighbours as a scan of the lists gives them. */
  function Neighbors(g: Snapshot, id: string, kind: Option<string>, direction: Direction): seq<GraphNode> {
    var byId := NodeMap(g.nodes);
    var out := FarEnds(byId, OfKind(EdgesFrom(g.edges, id), kind), true);
    var into := FarEnds(byId, OfKind(EdgesInto(g.edges, id), kind), false);
    match direction
    case Out => out
    case In => into
    case Both => FirstOfEachId(out + into)
    case Unknown(_) => []
  }

  function Ids(nodes: seq<GraphNode>): (r: seq<string>)
    ensures |r| == |nodes| && forall i | 0 <= i < |r| :: r[i] == nodes[i].id
  {
    seq(|nodes|, i requires 0 <= i < |nodes| => nodes[i].id)
  }

  /** The graph the algorithms walk. */
  function Adjacency(g: Snapshot, kind: Option<string>, direction: Direction): (adj: map<string, seq<string>>)
    ensures adj.Keys == NodeIds(g.nodes)
  {
    map id | id in NodeIds(g.nodes) :: Ids(Neighbors(g, id, kind, direction))
  }

  /** Stored edge `e` lets a walk go from `a` to `b`. */
  predicate Links(e: GraphEdge, kind: Option<string>, direction: Direction, a: string, b: string) {
    && (kind.None? || e.kind == kind.value)
    && (((direction.Out? || direction.Both?) && e.srcId == a && e.dstId == b)
        || ((direction.In? || direction.Both?) && e.srcId == b && e.dstId == a))
  }

  ghost predicate SomeLink(g: Snapshot, kind: Option<string>, direction: Direction, a: string, b: string) {
    exists e :: e in g.edges && Links(e, kind, direction, a, b)
  }

  /** What an edge of the walked graph is, in terms of the stored edges alone. */
  ghost predicate Adjacent(g: Snapshot, kind: Option<string>, direction: Direction, a: string, b: string) {
    && a in NodeIds(g.nodes) && b in NodeIds(g.nodes)
    && SomeLink(g, kind, direction, a, b)
  }

  /** No later node has the id of `n`. */
  ghost predicate IsLast(nodes: seq<GraphNode>, n: GraphNode) {
    exists k :: 0 <= k < |nodes| && nodes[k] == n && forall j | k < j < |nodes| :: nodes[j].id != n.id
  }

  lemma {:induction false} NodeMapMeaning(nodes: seq<GraphNode>)
    ensures NodeMap(nodes).Keys == NodeIds(nodes)
    ensures forall id | id in NodeMap(nodes) :: NodeMap(nodes)[id].id == id && IsLast(nodes, NodeMap(nodes)[id])
  {
    if nodes != [] {
      var front, last := nodes[..|nodes| - 1], nodes[|nodes| - 1];
      assert nodes == front + [last];
      NodeIdsAppend(front, last);
      NodeMapMeaning(front);
      hide IsLast;
      LastIsLast(front, last);
      forall id | id in NodeMap(front) && id != last.id ensures IsLast(nodes, NodeMap(front)[id]) {
        LastStays(front, last, NodeMap(front)[id]);
      }
    }
  }

  lemma LastIsLast(nodes: seq<GraphNode>, n: GraphNode)
    ensures IsLast(nodes + [n], n)
  {
    assert (nodes + [n])[|nodes|] == n;
  }

  lemma LastStays(nodes: seq<GraphNode>, x: GraphNode, n: GraphNode)
    requires IsLast(nodes, n) && n.id != x.id
    ensures IsLast(nodes + [x], n)
  {
    var k :| 0 <= k < |nodes| && nodes[k] == n && forall j | k < j < |nodes| :: nodes[j].id != n.id;
    assert (nodes + [x])[k] == n;
  }

  function LeadsFrom(id: string): GraphEdge -> bool {
    (e: GraphEdge) => e.srcId == id
  }

  function LeadsInto(id: string): GraphEdge -> bool {
    (e: GraphEdge) => e.dstId == id
  }

  function HasKind(kind: Option<string>): GraphEdge -> bool {
    (e: GraphEdge) => kind.None? || e.kind == kind.value
  }

  lemma {:induction false} EdgesFromMeaning(edges: seq<GraphEdge>, id: string)
    ensures Selects(edges, LeadsFrom(id), EdgesFrom(edges, id))
  {
    if edges == [] {
      SelectsNothing(LeadsFrom(id));
    } else {
      var front, last := edges[..|edges| - 1], edges[|edges| - 1];
      assert edges == front + [last];
      EdgesFromMeaning(front, id);
      SelectsNext(front, last, LeadsFrom(id), EdgesFrom(front, id));
    }
  }

  lemma {:induction false} EdgesIntoMeaning(edges: seq<GraphEdge>, id: string)
    ensures Selects(edges, LeadsInto(id), EdgesInto(edges, id))
  {
    if edges == [] {
      SelectsNothing(LeadsInto(id));
    } else {
      var front, last := edges[..|edges| - 1], edges[|edges| - 1];
      assert edges == front + [last];
      EdgesIntoMeaning(front, id);
      SelectsNext(front, last, LeadsInto(id), EdgesInto(front, id));
    }
  }

  lemma {:induction false} OfKindMeaning(edges: seq<GraphEdge>, kind: Option<string>)
    ensures Selects(edges, HasKind(kind), OfKind(edges, kind))
  {
    if edges == [] {
      SelectsNothing(HasKind(kind));
    } else {
      var front, last := edges[..|edges| - 1], edges[|edges| - 1];
      assert edges == front + [last];
      OfKindMeaning(front, kind);
      SelectsNext(front, last, HasKind(kind), OfKind(front, kind));
    }
  }

  /** `r` are the stored edges that leave `id` and have the kind, in stored order. */
  ghost predicate AreOutEdges(edges: seq<GraphEdge>, id: string, kind: Option<string>, r: seq<GraphEdge>) {
    Selects(edges, (e: GraphEdge) => e.srcId == id && (kind.Some? ==> e.kind == kind.value), r)
  }

  /** `r` are the stored edges that enter `id` and have the kind, in stored order. */
  ghost predicate AreInEdges(edges: seq<GraphEdge>, id: string, kind: Option<string>, r: seq<GraphEdge>) {
    Selects(edges, (e: GraphEdge) => e.dstId == id && (kind.Some? ==> e.kind == kind.value), r)
  }

  lemma OutEdgesMeaning(edges: seq<GraphEdge>, id: string, kind: Option<string>)
    ensures AreOutEdges(edges, id, kind, OfKind(EdgesFrom(edges, id), kind))
    ensures forall e :: e in OfKind(EdgesFrom(edges, id), kind) <==>
      e in edges && e.srcId == id && (kind.None? || e.kind == kind.value)
  {
    var all, some := EdgesFrom(edges, id), OfKind(EdgesFrom(edges, id), kind);
    EdgesFromMeaning(edges, id);
    OfKindMeaning(all, kind);
    SelectsTwice(edges, LeadsFrom(id), all, HasKind(kind), some);
    SelectsMembers(edges, BothHold(LeadsFrom(id), HasKind(kind)), some);
    SelectsSame(edges, BothHold(LeadsFrom(id), HasKind(kind)),
                (e: GraphEdge) => e.srcId == id && (kind.Some? ==> e.kind == kind.value), some);
  }

  lemma InEdgesMeaning(edges: seq<GraphEdge>, id: string, kind: Option<string>)
    ensures AreInEdges(edges, id, kind, OfKind(EdgesInto(edges, id), kind))
    ensures forall e :: e in OfKind(EdgesInto(edges, id), kind) <==>
      e in edges && e.dstId == id && (kind.None? || e.kind == kind.value)
  {
    var all, some := EdgesInto(edges, id), OfKind(EdgesInto(edges, id), kind);
    EdgesIntoMeaning(edges, id);
    OfKindMeaning(all, kind);
    SelectsTwice(edges, LeadsInto(id), all, HasKind(kind), some);
    SelectsMembers(edges, BothHold(LeadsInto(id), HasKind(kind)), some);
    SelectsSame(edges, BothHold(LeadsInto(id), HasKind(kind)),
                (e: GraphEdge) => e.dstId == id && (kind.Some? ==> e.kind == kind.value), some);
  }

  lemma {:induction false} FirstOfEachIdMeaning(nodes: seq<GraphNode>)
    ensures NodeIds(FirstOfEachId(nodes)) == NodeIds(nodes)
    ensures var r := FirstOfEachId(nodes); forall i, j | 0 <= i < j < |r| :: r[i].id != r[j].id
  {
    if nodes != [] {
      var front, last := nodes[..|nodes| - 1], nodes[|nodes| - 1];
      assert nodes == front + [last];
      FirstOfEachIdMeaning(front);
      NodeIdsAppend(front, last);
      NodeIdsAppend(FirstOfEachId(front), last);
    }
  }

  lemma {:induction false} FarEndIds(nodes: seq<GraphNode>, edges: seq<GraphEdge>, outward: bool, b: string)
    ensures b in NodeIds(FarEnds(NodeMap(nodes), edges, outward)) <==>
      b in NodeIds(nodes) && exists e :: e in edges && FarEnd(e, outward) == b
  {
    if edges != [] {
      var front, last := edges[..|edges| - 1], edges[|edges| - 1];
      assert edges == front + [last];
      FarEndIds(nodes, front, outward, b);
      NodeMapMeaning(nodes);
      var id := FarEnd(last, outward);
      if id in NodeMap(nodes) {
        NodeIdsAppend(FarEnds(NodeMap(nodes), front, outward), NodeMap(nodes)[id]);
      }
      assert forall e :: e in edges <==> e in front || e == last;
    }
  }

  // --- Neighbours in their order ------------------------------------------------------------------

  /** The nodes of the list that the edges lead to, edge by edge; an edge to no node is passed over. */
  ghost predicate AreFarEnds(nodes: seq<GraphNode>, edges: seq<GraphEdge>, outward: bool, r: seq<GraphNode>) {
    exists es: seq<GraphEdge> :: && Selects(edges, LeadsToNode(nodes, outward), es) && LeadTo(nodes, es, outward, r)
  }

  function LeadsToNode(nodes: seq<GraphNode>, outward: bool): GraphEdge -> bool {
    (e: GraphEdge) => (if outward then e.dstId else e.srcId) in NodeIds(nodes)
  }

  ghost predicate LeadTo(nodes: seq<GraphNode>, es: seq<GraphEdge>, outward: bool, r: seq<GraphNode>) {
    |r| == |es| && forall i | 0 <= i < |r| ::
      IsLast(nodes, r[i]) && r[i].id == if outward then es[i].dstId else es[i].srcId
  }

  lemma {:induction false} FarEndsMeaning(nodes: seq<GraphNode>, edges: seq<GraphEdge>, outward: bool) returns (es: seq<GraphEdge>)
    ensures Selects(edges, LeadsToNode(nodes, outward), es)
    ensures LeadTo(nodes, es, outward, FarEnds(NodeMap(nodes), edges, outward))
  {
    hide IsLast, Selects, NodeIds, NodeMap;
    NodeMapMeaning(nodes);
    if edges == [] {
      es := [];
      SelectsNothing(LeadsToNode(nodes, outward));
    } else {
      var front, last := edges[..|edges| - 1], edges[|edges| - 1];
      assert edges == front + [last];
      es := FarEndsMeaning(nodes, front, outward);
      SelectsNext(front, last, LeadsToNode(nodes, outward), es);
      es := es + if LeadsToNode(nodes, outward)(last) then [last] else [];
    }
  }

  /** `r` keeps of `s` the nodes that no earlier one has the id of, in order. */
  ghost predicate KeepsFirsts(s: seq<GraphNode>, r: seq<GraphNode>) {
    exists at: seq<int> :: PicksAt(s, r, at) && AreFirsts(s, at)
  }

  ghost predicate AreFirsts(s: seq<GraphNode>, at: seq<int>) {
    forall k | 0 <= k < |s| :: k in at <==> forall j | 0 <= j < k :: s[j].id != s[k].id
  }

  lemma {:induction false} FirstsKept(nodes: seq<GraphNode>) returns (at: seq<int>)
    ensures PicksAt(nodes, FirstOfEachId(nodes), at) && AreFirsts(nodes, at)
  {
    if nodes == [] {
      at := [];
    } else {
      var front, last := nodes[..|nodes| - 1], nodes[|nodes| - 1];
      assert nodes == front + [last];
      at := FirstsKept(front);
      hide PicksAt, AreFirsts;
      FirstOfEachIdMeaning(front);
      NewId(front, last);
      FirstsNext(front, last, FirstOfEachId(front), at, last.id !in NodeIds(front));
      if last.id !in NodeIds(front) {
        PicksNext(front, last, FirstOfEachId(front), at);
        at := at + [|front|];
      } else {
        PicksSame(front, last, FirstOfEachId(front), at);
      }
    }
  }

  lemma NewId(nodes: seq<GraphNode>, n: GraphNode)
    ensures n.id !in NodeIds(nodes) <==> forall j | 0 <= j < |nodes| :: nodes[j].id != n.id
  {}

  lemma FirstsNext(s: seq<GraphNode>, x: GraphNode, r: seq<GraphNode>, at: seq<int>, isNew: bool)
    requires PicksAt(s, r, at) && AreFirsts(s, at) && (isNew <==> forall j | 0 <= j < |s| :: s[j].id != x.id)
    ensures AreFirsts(s + [x], if isNew then at + [|s|] else at)
  {
    var all, more := s + [x], if isNew then at + [|s|] else at;
    forall k | 0 <= k < |all| ensures k in more <==> forall j | 0 <= j < k :: all[j].id != all[k].id {
      assert k in more <==> k in at || (isNew && k == |s|);
      if k < |s| {
        assert all[k] == s[k] && forall j | 0 <= j < k :: all[j] == s[j];
      } else {
        assert forall j | 0 <= j < |s| :: all[j] == s[j];
      }
    }
  }

  /** What `neighbors` answers, from the stored lists alone: the far ends of the edges that leave
      the node, of those that enter it, or of the first and then the second, each id once. */
  ghost predicate AreNeighbors(g: Snapshot, id: string, kind: Option<string>, direction: Direction, r: seq<GraphNode>) {
    match direction
    case Out => AreFarEndsOf(g, id, kind, true, r)
    case In => AreFarEndsOf(g, id, kind, false, r)
    case Both => exists out, into :: AreFarEndsOf(g, id, kind, true, out) && AreFarEndsOf(g, id, kind, false, into)
                                     && KeepsFirsts(out + into, r)
    case Unknown(_) => r == []
  }

  ghost predicate AreFarEndsOf(g: Snapshot, id: string, kind: Option<string>, outward: bool, r: seq<GraphNode>) {
    exists es: seq<GraphEdge> ::
      && (if outward then AreOutEdges(g.edges, id, kind, es) else AreInEdges(g.edges, id, kind, es))
      && AreFarEnds(g.nodes, es, outward, r)
  }

  lemma NeighborsInOrder(g: Snapshot, id: string, kind: Option<string>, direction: Direction)
    ensures AreNeighbors(g, id, kind, direction, Neighbors(g, id, kind, direction))
  {
    hide Selects, AreOutEdges, AreInEdges, LeadTo, KeepsFirsts;
    var fromId, intoId := OfKind(EdgesFrom(g.edges, id), kind), OfKind(EdgesInto(g.edges, id), kind);
    OutEdgesMeaning(g.edges, id, kind);
    InEdgesMeaning(g.edges, id, kind);
    var a := FarEndsMeaning(g.nodes, fromId, true);
    var b := FarEndsMeaning(g.nodes, intoId, false);
    var out, into := FarEnds(NodeMap(g.nodes), fromId, true), FarEnds(NodeMap(g.nodes), intoId, false);
    assert AreFarEnds(g.nodes, fromId, true, out) && AreFarEnds(g.nodes, intoId, false, into);
    assert AreFarEndsOf(g, id, kind, true, out) && AreFarEndsOf(g, id, kind, false, into);
    FirstsAreKept(out + into);
  }

  lemma FirstsAreKept(nodes: seq<GraphNode>)
    ensures KeepsFirsts(nodes, FirstOfEachId(nodes))
  {
    var at := FirstsKept(nodes);
  }

  lemma NodeIdsConcat(a: seq<GraphNode>, b: seq<GraphNode>)
    ensures NodeIds(a + b) == NodeIds(a) + NodeIds(b)
  {
    assert forall n :: n in a + b <==> n in a || n in b;
  }

  lemma IdsAreNodeIds(nodes: seq<GraphNode>, b: string)
    ensures b in Ids(nodes) <==> b in NodeIds(nodes)
  {
    if b in NodeIds(nodes) {
      var i :| 0 <= i < |nodes| && nodes[i].id == b;
      assert Ids(nodes)[i] == b;
    }
  }

  lemma OutwardLinks(g: Snapshot, kind: Option<string>, a: string, b: string)
    ensures b in NodeIds(FarEnds(NodeMap(g.nodes), OfKind(EdgesFrom(g.edges, a), kind), true)) <==>
      b in NodeIds(g.nodes) && SomeLink(g, kind, Out, a, b)
  {
    var fromA := OfKind(EdgesFrom(g.edges, a), kind);
    FarEndIds(g.nodes, fromA, true, b);
    OutEdgesMeaning(g.edges, a, kind);
    if e :| e in g.edges && Links(e, kind, Out, a, b) {
      assert e in fromA && FarEnd(e, true) == b;
    }
    if e :| e in fromA && FarEnd(e, true) == b {
      assert Links(e, kind, Out, a, b);
    }
  }

  lemma InwardLinks(g: Snapshot, kind: Option<string>, a: string, b: string)
    ensures b in NodeIds(FarEnds(NodeMap(g.nodes), OfKind(EdgesInto(g.edges, a), kind), false)) <==>
      b in NodeIds(g.nodes) && SomeLink(g, kind, In, a, b)
  {
    var intoA := OfKind(EdgesInto(g.edges, a), kind);
    FarEndIds(g.nodes, intoA, false, b);
    InEdgesMeaning(g.edges, a, kind);
    if e :| e in g.edges && Links(e, kind, In, a, b) {
      assert e in intoA && FarEnd(e, false) == b;
    }
    if e :| e in intoA && FarEnd(e, false) == b {
      assert Links(e, kind, In, a, b);
    }
  }

  lemma LinksEitherWay(g: Snapshot, kind: Option<string>, a: string, b: string)
    ensures SomeLink(g, kind, Both, a, b) <==> SomeLink(g, kind, Out, a, b) || SomeLink(g, kind, In, a, b)
  {
    if e :| e in g.edges && Links(e, kind, Both, a, b) {
      assert Links(e, kind, Out, a, b) || Links(e, kind, In, a, b);
    }
    if e :| e in g.edges && Links(e, kind, Out, a, b) {
      assert Links(e, kind, Both, a, b);
    }
    if e :| e in g.edges && Links(e, kind, In, a, b) {
      assert Links(e, kind, Both, a, b);
    }
  }

  lemma NeighborsMeaning(g: Snapshot, kind: Option<string>, direction: Direction, a: string, b: string)
    ensures b in NodeIds(Neighbors(g, a, kind, direction)) <==>
      b in NodeIds(g.nodes) && SomeLink(g, kind, direction, a, b)
  {
    OutwardLinks(g, kind, a, b);
    InwardLinks(g, kind, a, b);
    LinksEitherWay(g, kind, a, b);
    var out := FarEnds(NodeMap(g.nodes), OfKind(EdgesFrom(g.edges, a), kind), true);
    var into := FarEnds(NodeMap(g.nodes), OfKind(EdgesInto(g.edges, a), kind), false);
    NodeIdsConcat(out, into);
    FirstOfEachIdMeaning(out + into);
  }

  lemma AdjacencyMeaning(g: Snapshot, kind: Option<string>, direction: Direction, a: string, b: string)
    ensures Edge(Adjacency(g, kind, direction), a, b) <==> Adjacent(g, kind, direction, a, b)
  {
    NeighborsMeaning(g, kind, direction, a, b);
    IdsAreNodeIds(Neighbors(g, a, kind, direction), b);
  }

  lemma AdjacencyAt(g: Snapshot, kind: Option<string>, direction: Direction, id: string)
    requires id in NodeIds(g.nodes)
    ensures Adjacency(g, kind, direction)[id] == Ids(Neighbors(g, id, kind, direction))
  {}

  /** Searching inward is searching outward along reversed edges. */
  lemma InwardIsTransposed(g: Snapshot, kind: Option<string>)
    ensures Transposed(Adjacency(g, kind, Out), Adjacency(g, kind, In))
  {
    forall a, b ensures Edge(Adjacency(g, kind, Out), a, b) <==> Edge(Adjacency(g, kind, In), b, a) {
      AdjacencyMeaning(g, kind, Out, a, b);
      AdjacencyMeaning(g, kind, In, b, a);
      assert forall e :: Links(e, kind, Out, a, b) <==> Links(e, kind, In, b, a);
    }
  }

  /** `b` is found searching outward from `a` exactly when `a` is found searching inward from `b`. */
  lemma OutwardInwardDuality(g: Snapshot, kind: Option<string>, a: string, b: string)
    ensures Reach(Adjacency(g, kind, Out), a, b) <==> Reach(Adjacency(g, kind, In), b, a)
  {
    InwardIsTransposed(g, kind);
    ReachTransposed(Adjacency(g, kind, Out), Adjacency(g, kind, In), a, b);
  }
}
