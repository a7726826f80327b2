/** Induced subgraphs, and the neighbourhood of a node up to a depth. */
module Subgraphs {
  import opened Outcomes
  import opened Digraphs
  import opened Sequences
  import opened Searches
  import opened Graphs
  import opened GraphModels
  import opened Algebra

  function KeepNodes(nodes: seq<GraphNode>, keep: set<string>): seq<GraphNode> {
    if nodes == [] then []
    else
      var last := nodes[|nodes| - 1];
      KeepNodes(nodes[..|nodes| - 1], keep) + if last.id in keep then [last] else []
  }

  function KeepEdges(edges: seq<GraphEdge>, keep: set<string>): seq<GraphEdge> {
    if edges == [] then []
    else
      var last := edges[|edges| - 1];
      KeepEdges(edges[..|edges| - 1], keep) + if last.srcId in keep && last.dstId in keep then [last] else []
  }

  function Induced(g: Snapshot, ids: set<string>): Snapshot {
    var keep := ids * NodeIds(g.nodes);
    Snapshot(KeepNodes(g.nodes, keep), KeepEdges(g.edges, keep))
  }

  ghost function IsKept(keep: set<string>): GraphNode -> bool {
    (n: GraphNode) => n.id in keep
  }

  ghost function EndsAreKept(keep: set<string>): GraphEdge -> bool {
    (e: GraphEdge) => e.srcId in keep && e.dstId in keep
  }

  lemma {:induction false} KeepNodesMeaning(nodes: seq<GraphNode>, keep: set<string>)
    ensures Selects(nodes, IsKept(keep), KeepNodes(nodes, keep))
  {
    if nodes == [] {
      SelectsNothing(IsKept(keep));
    } else {
      var front, last := nodes[..|nodes| - 1], nodes[|nodes| - 1];
      assert nodes == front + [last];
      KeepNodesMeaning(front, keep);
      SelectsNext(front, last, IsKept(keep), KeepNodes(front, keep));
    }
  }

  lemma {:induction false} KeepEdgesMeaning(edges: seq<GraphEdge>, keep: set<string>)
    ensures Selects(edges, EndsAreKept(keep), KeepEdges(edges, keep))
  {
    if edges == [] {
      SelectsNothing(EndsAreKept(keep));
    } else {
      var front, last := edges[..|edges| - 1], edges[|edges| - 1];
      assert edges == front + [last];
      KeepEdgesMeaning(front, keep);
      SelectsNext(front, last, EndsAreKept(keep), KeepEdges(front, keep));
    }
  }

  /** The nodes and edges of `r` are those of `g` that have an id to keep, or both ends among the
      kept nodes, in their order. */
  ghost predicate IsInduced(g: Snapshot, ids: set<string>, r: Snapshot) {
    && Selects(g.nodes, (n: GraphNode) => n.id in ids, r.nodes)
    && Selects(g.edges, (e: GraphEdge) =>
         (e.srcId in ids && e.srcId in NodeIds(g.nodes)) && (e.dstId in ids && e.dstId in NodeIds(g.nodes)), r.edges)
  }

  lemma InducedInOrder(g: Snapshot, ids: set<string>)
    ensures IsInduced(g, ids, Induced(g, ids))
  {
    hide Selects;
    var keep := ids * NodeIds(g.nodes);
    KeepNodesMeaning(g.nodes, keep);
    KeepEdgesMeaning(g.edges, keep);
    SelectsSame(g.nodes, IsKept(keep), (n: GraphNode) => n.id in ids, KeepNodes(g.nodes, keep));
    SelectsSame(g.edges, EndsAreKept(keep), (e: GraphEdge) =>
      (e.srcId in ids && e.srcId in NodeIds(g.nodes)) && (e.dstId in ids && e.dstId in NodeIds(g.nodes)),
      KeepEdges(g.edges, keep));
  }

  /** The kept nodes are the known ones asked for; the kept edges are those with both ends kept. */
  lemma InducedMeaning(g: Snapshot, ids: set<string>)
    ensures forall n :: n in Induced(g, ids).nodes <==> n in g.nodes && n.id in ids
    ensures forall e :: e in Induced(g, ids).edges <==>
      e in g.edges && e.srcId in ids * NodeIds(g.nodes) && e.dstId in ids * NodeIds(g.nodes)
  {
    var keep := ids * NodeIds(g.nodes);
    KeepNodesMeaning(g.nodes, keep);
    KeepEdgesMeaning(g.edges, keep);
    SelectsMembers(g.nodes, IsKept(keep), KeepNodes(g.nodes, keep));
    SelectsMembers(g.edges, EndsAreKept(keep), KeepEdges(g.edges, keep));
  }

  method InducedSubgraph(graph: Graph, nodeIds: set<string>) returns (r: Graph)
    requires graph.Valid()
    modifies graph`index, graph`indexed
    ensures graph.Valid() && fresh(r) && r.Valid() && r.meta == graph.meta
    ensures r.View() == Induced(graph.View(), nodeIds) && IsInduced(graph.View(), nodeIds, r.View())
  {
    hide Covers, IsInduced;
    InducedInOrder(graph.View(), nodeIds);
    var keep: set<string>, todo := {}, nodeIds;
    while todo != {}
      invariant graph.Valid() && todo <= nodeIds && keep == (nodeIds - todo) * NodeIds(graph.nodes)
      decreases todo
    {
      var id :| id in todo;
      todo := todo - {id};
      var known := graph.HasNode(id);
      if known {
        keep := keep + {id};
      }
    }
    assert keep == nodeIds * NodeIds(graph.nodes);
    r := new Graph(graph.edgeId, graph.meta, KeepNodes(graph.nodes, keep), KeepEdges(graph.edges, keep));
  }

  // --- Balls ----------------------------------------------------------------------------

  lemma StepUnion<V(!new)>(adj: map<V, seq<V>>, s: set<V>, t: set<V>)
    ensures Step(adj, s + t) == Step(adj, s) + Step(adj, t)
  {}

  /** Once a ball stops growing, no larger radius adds anything. */
  lemma BallStable<V(!new)>(adj: map<V, seq<V>>, a: V, n: nat, m: nat)
    requires Ball(adj, a, n + 1) == Ball(adj, a, n) && n <= m
    ensures Ball(adj, a, m) == Ball(adj, a, n)
    decreases m
  {
    if n < m {
      BallStable(adj, a, n, m - 1);
    }
  }

  /** A ball that did not grow does not grow further. */
  lemma BallStops<V(!new)>(adj: map<V, seq<V>>, a: V, n: nat)
    requires Ball(adj, a, n + 1) == Ball(adj, a, n)
    ensures Ball(adj, a, n + 2) == Ball(adj, a, n + 1)
  {
    hide Step;
  }

  /** A ball of radius `n` is complete or has more than `n` vertices. */
  lemma {:induction false} BallGrows<V(!new)>(adj: map<V, seq<V>>, a: V, n: nat)
    ensures |Ball(adj, a, n)| > n || Ball(adj, a, n + 1) == Ball(adj, a, n)
  {
    hide Ball;
    if n == 0 {
      BallHasCentre(adj, a, 0);
      assert Ball(adj, a, 0) != {};
    } else {
      BallGrows(adj, a, n - 1);
      BallMonotone(adj, a, n - 1, n);
      if Ball(adj, a, n) == Ball(adj, a, n - 1) {
        BallStops(adj, a, n - 1);
      } else {
        SubsetSize(Ball(adj, a, n - 1), Ball(adj, a, n));
      }
    }
  }

  lemma {:induction false} BallWithin<V(!new)>(adj: map<V, seq<V>>, a: V, n: nat)
    requires WellFormed(adj) && a in adj
    ensures Ball(adj, a, n) <= adj.Keys
  {
    if n > 0 {
      BallWithin(adj, a, n - 1);
      forall y | y in Step(adj, Ball(adj, a, n - 1)) ensures y in adj {
        var x :| x in Ball(adj, a, n - 1) && x in adj && y in adj[x];
        assert Edge(adj, x, y);
      }
    }
  }

  /** At a depth of the number of vertices the neighbourhood is everything reachable. */
  lemma BallSaturates<V(!new)>(adj: map<V, seq<V>>, a: V, n: nat)
    requires WellFormed(adj) && a in adj && n >= |adj.Keys|
    ensures forall x :: x in Ball(adj, a, n) <==> Reach(adj, a, x)
  {
    BallWithin(adj, a, n);
    if |Ball(adj, a, n)| > n {
      SubsetSize(Ball(adj, a, n), adj.Keys);
      assert false;
    }
    BallGrows(adj, a, n);
    forall x, y | x in Ball(adj, a, n) && Edge(adj, x, y) ensures y in Ball(adj, a, n) {
      assert y in Step(adj, Ball(adj, a, n));
    }
    BallFixpoint(adj, a, n);
  }

  lemma StepOfNone(adj: map<string, seq<string>>)
    ensures Step(adj, {}) == {}
  {}

  lemma StepOfOne(adj: map<string, seq<string>>, id: string)
    requires id in adj
    ensures Step(adj, {id}) == Elements(adj[id])
  {}

  // --- Neighbourhoods -------------------------------------------------------------------

  /** The loop body of `subgraph_around`: neighbours of the frontier that are not kept yet. */
  method NextFrontier(graph: Graph, frontier: set<string>, keep: set<string>, edgeKind: Option<string>,
                      direction: Direction, ghost adj: map<string, seq<string>>)
    returns (r: Result<set<string>, GraphError>)
    requires graph.Valid() && adj == Adjacency(graph.View(), edgeKind, direction)
    requires frontier <= adj.Keys && frontier != {}
    modifies graph`index, graph`indexed
    ensures graph.Valid()
    ensures direction.Unknown? ==> r == Err(InvalidDirection(direction.text))
    ensures !direction.Unknown? ==> r == Ok(Step(adj, frontier) - keep)
  {
    hide Neighbors, AreNeighbors, Adjacency, Covers, NodeIds, Step;
    var next: set<string>, todo := {}, frontier;
    StepOfNone(adj);
    assert frontier - todo == {};
    while todo != {}
      invariant graph.Valid() && todo <= frontier && next == Step(adj, frontier - todo) - keep
      invariant direction.Unknown? ==> todo == frontier
      decreases todo
    {
      var nid :| nid in todo;
      AdjacencyAt(graph.View(), edgeKind, direction, nid);
      StepUnion(adj, frontier - todo, {nid});
      assert frontier - (todo - {nid}) == frontier - todo + {nid};
      todo := todo - {nid};
      var neighbors :- graph.NeighborNodes(nid, edgeKind, direction);
      ghost var before := next;
      for i := 0 to |neighbors|
        invariant graph.Valid() && next == before + (Elements(adj[nid][..i]) - keep)
      {
        assert adj[nid][..i + 1] == adj[nid][..i] + [adj[nid][i]];
        if neighbors[i].id !in keep {
          next := next + {neighbors[i].id};
        }
      }
      assert adj[nid][..|neighbors|] == adj[nid];
      StepOfOne(adj, nid);
    }
    assert frontier - todo == frontier;
    r := Ok(next);
  }

  ghost function Around(g: Snapshot, startId: string, maxDepth: int, edgeKind: Option<string>,
                        direction: Direction): Snapshot {
    if startId !in NodeIds(g.nodes) then Snapshot([], [])
    else if maxDepth <= 0 then Induced(g, {startId})
    else Induced(g, Ball(Adjacency(g, edgeKind, direction), startId, maxDepth))
  }

  /** One layer further out, from the layer added last. */
  lemma NextLayer(adj: map<string, seq<string>>, start: string, depth: nat, keep: set<string>, frontier: set<string>)
    requires WellFormed(adj) && start in adj && keep == Ball(adj, start, depth)
    requires frontier == if depth == 0 then {start} else keep - Ball(adj, start, depth - 1)
    ensures frontier <= adj.Keys
    ensures Ball(adj, start, depth + 1) == keep + (Step(adj, frontier) - keep)
    ensures Step(adj, frontier) - keep == Ball(adj, start, depth + 1) - Ball(adj, start, depth)
  {
    BallWithin(adj, start, depth);
  }

  /** The layer loop of `subgraph_around`. */
  method Layers(graph: Graph, startId: string, maxDepth: nat, edgeKind: Option<string>, direction: Direction,
                ghost adj: map<string, seq<string>>)
    returns (r: Result<set<string>, GraphError>)
    requires graph.Valid() && adj == Adjacency(graph.View(), edgeKind, direction)
    requires WellFormed(adj) && startId in adj && maxDepth > 0
    modifies graph`index, graph`indexed
    ensures graph.Valid()
    ensures direction.Unknown? ==> r == Err(InvalidDirection(direction.text))
    ensures !direction.Unknown? ==> r == Ok(Ball(adj, startId, maxDepth))
  {
    hide Adjacency, Covers, Step, NodeIds, WellFormed;
    var keep, frontier := {startId}, {startId};
    for depth := 0 to maxDepth
      invariant graph.Valid() && keep == Ball(adj, startId, depth) && frontier != {}
      invariant direction.Unknown? ==> depth == 0
      invariant frontier == if depth == 0 then {startId} else keep - Ball(adj, startId, depth - 1)
    {
      NextLayer(adj, startId, depth, keep, frontier);
      var next :- NextFrontier(graph, frontier, keep, edgeKind, direction, adj);
      if next == {} {
        BallStable(adj, startId, depth, maxDepth);
        break;
      }
      keep := keep + next;
      frontier := next;
    }
    r := Ok(keep);
  }

  method SubgraphAround(graph: Graph, startId: string, maxDepth: int, edgeKind: Option<string>, direction: Direction)
    returns (r: Result<Graph, GraphError>)
    requires graph.Valid()
    modifies graph`index, graph`indexed
    ensures graph.Valid()
    ensures r.Err? <==> startId in NodeIds(graph.nodes) && maxDepth > 0 && direction.Unknown?
    ensures r.Err? ==> r.error == InvalidDirection(direction.text)
    ensures r.Ok? ==> fresh(r.value) && r.value.Valid() && r.value.meta == graph.meta
    ensures r.Ok? ==> r.value.View() == Around(graph.View(), startId, maxDepth, edgeKind, direction)
    ensures r.Ok? && startId !in NodeIds(graph.nodes) ==> r.value.View() == Snapshot([], [])
    ensures r.Ok? && startId in NodeIds(graph.nodes) ==>
      IsAround(graph.View(), startId, if maxDepth <= 0 then 0 else maxDepth, edgeKind, direction, r.value.View())
  {
    hide Adjacency, Covers, Induced, IsInduced, IsAround;
    if startId in NodeIds(graph.nodes) {
      AroundInOrder(graph.View(), startId, maxDepth, edgeKind, direction);
    }
    var known := graph.HasNode(startId);
    if !known {
      var none := new Graph(graph.edgeId, graph.meta, [], []);
      return Ok(none);
    }
    if maxDepth <= 0 {
      var alone := InducedSubgraph(graph, {startId});
      return Ok(alone);
    }
    ghost var adj := Adjacency(graph.View(), edgeKind, direction);
    AdjacencyWellFormed(graph.View(), edgeKind, direction);
    var keep :- Layers(graph, startId, maxDepth, edgeKind, direction, adj);
    var around := InducedSubgraph(graph, keep);
    r := Ok(around);
  }

  /** `b` is at most `depth` edges away from `a`. */
  ghost predicate WithinDepth(adj: map<string, seq<string>>, a: string, b: string, depth: nat) {
    exists p: seq<string> :: WalkFromTo(adj, p, a, b) && |p| <= depth + 1
  }

  /** The nodes of `r` are those within the depth, and its edges those with both ends within it, in
      the order of `g`. */
  ghost predicate IsAround(g: Snapshot, startId: string, depth: nat, edgeKind: Option<string>, direction: Direction,
                           r: Snapshot) {
    var adj := Adjacency(g, edgeKind, direction);
    && Selects(g.nodes, (n: GraphNode) => WithinDepth(adj, startId, n.id, depth), r.nodes)
    && Selects(g.edges, (e: GraphEdge) =>
         WithinDepth(adj, startId, e.srcId, depth) && WithinDepth(adj, startId, e.dstId, depth), r.edges)
  }

  lemma AroundInOrder(g: Snapshot, startId: string, maxDepth: int, edgeKind: Option<string>, direction: Direction)
    requires startId in NodeIds(g.nodes)
    ensures IsAround(g, startId, if maxDepth <= 0 then 0 else maxDepth, edgeKind, direction,
                     Around(g, startId, maxDepth, edgeKind, direction))
  {
    hide Adjacency, Selects, Induced;
    var adj := Adjacency(g, edgeKind, direction);
    var depth: nat := if maxDepth <= 0 then 0 else maxDepth;
    var ids, r := Ball(adj, startId, depth), Around(g, startId, maxDepth, edgeKind, direction);
    AdjacencyWellFormed(g, edgeKind, direction);
    BallWithin(adj, startId, depth);
    InducedInOrder(g, ids);
    forall x ensures WithinDepth(adj, startId, x, depth) <==> x in ids {
      BallIsWalks(adj, startId, x, depth);
    }
    hide WithinDepth, Ball;
    SelectsSame(g.nodes, (n: GraphNode) => n.id in ids,
                (n: GraphNode) => WithinDepth(adj, startId, n.id, depth), r.nodes);
    SelectsSame(g.edges, (e: GraphEdge) =>
      (e.srcId in ids && e.srcId in NodeIds(g.nodes)) && (e.dstId in ids && e.dstId in NodeIds(g.nodes)),
      (e: GraphEdge) => WithinDepth(adj, startId, e.srcId, depth) && WithinDepth(adj, startId, e.dstId, depth), r.edges);
  }

  /** `subgraph_around` keeps exactly the nodes within the depth, and exactly the edges with
      both ends kept; a depth below zero is zero. */
  lemma AroundMeaning(g: Snapshot, startId: string, maxDepth: int, edgeKind: Option<string>, direction: Direction)
    requires startId in NodeIds(g.nodes)
    ensures var adj := Adjacency(g, edgeKind, direction);
      var depth: nat := if maxDepth <= 0 then 0 else maxDepth;
      var around := Around(g, startId, maxDepth, edgeKind, direction);
      && (forall n :: n in around.nodes <==> n in g.nodes && WithinDepth(adj, startId, n.id, depth))
      && (forall e :: e in around.edges <==>
           e in g.edges && WithinDepth(adj, startId, e.srcId, depth) && WithinDepth(adj, startId, e.dstId, depth))
  {
    hide Adjacency, Induced;
    var adj := Adjacency(g, edgeKind, direction);
    var depth: nat := if maxDepth <= 0 then 0 else maxDepth;
    AdjacencyWellFormed(g, edgeKind, direction);
    BallWithin(adj, startId, depth);
    InducedMeaning(g, Ball(adj, startId, depth));
    forall x ensures WithinDepth(adj, startId, x, depth) <==> x in Ball(adj, startId, depth) {
      BallIsWalks(adj, startId, x, depth);
    }
  }

  /** With a depth of at least the number of nodes, `subgraph_around` is the subgraph induced
      by the transitive closure. */
  lemma AroundIsClosure(g: Snapshot, startId: string, depth: nat, edgeKind: Option<string>, direction: Direction,
                        closure: set<string>)
    requires startId in NodeIds(g.nodes) && depth >= |g.nodes|
    requires forall x :: x in closure <==> Reach(Adjacency(g, edgeKind, direction), startId, x)
    ensures Around(g, startId, depth, edgeKind, direction) == Induced(g, closure)
  {
    hide Adjacency, Induced, Reach;
    var adj := Adjacency(g, edgeKind, direction);
    AdjacencyWellFormed(g, edgeKind, direction);
    IdCount(g.nodes);
    BallSaturates(adj, startId, depth);
    assert Ball(adj, startId, depth) == closure;
  }

  lemma {:induction false} IdCount(nodes: seq<GraphNode>)
    ensures |NodeIds(nodes)| <= |nodes|
  {
    if nodes != [] {
      var front, last := nodes[..|nodes| - 1], nodes[|nodes| - 1];
      assert nodes == front + [last];
      NodeIdsAppend(front, last);
      IdCount(front);
    }
  }
}
