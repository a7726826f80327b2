/** The graph searches, over the mutable graph and its lazily built index. */
module Algebra {
  import opened Outcomes
  import opened Digraphs
  import opened Sequences
  import opened Searches
  import opened Graphs
  import opened GraphModels

  lemma AdjacencyWellFormed(g: Snapshot, kind: Option<string>, direction: Direction)
    ensures WellFormed(Adjacency(g, kind, direction))
  {
    forall a, b | Edge(Adjacency(g, kind, direction), a, b) ensures b in NodeIds(g.nodes) {
      AdjacencyMeaning(g, kind, direction, a, b);
    }
  }

  /** The body of the search loops: appends each unseen neighbour to the discovery order,
      the visited set and the queue. */
  method Discover(neighbors: seq<GraphNode>, visited: set<string>, order: seq<string>, queue: seq<string>)
    returns (visited': set<string>, order': seq<string>, queue': seq<string>)
    requires visited == Elements(order)
    ensures order' == AddNew(order, Ids(neighbors))
    ensures visited' == Elements(order')
    ensures order <= order' && queue' == queue + order'[|order|..]
  {
    visited', order', queue' := visited, order, queue;
    for i := 0 to |neighbors|
      invariant order' == AddNew(order, Ids(neighbors)[..i])
      invariant order <= order' && visited' == Elements(order')
      invariant queue' == queue + order'[|order|..]
    {
      assert Ids(neighbors)[..i + 1][..i] == Ids(neighbors)[..i];
      var id := neighbors[i].id;
      if id !in visited' {
        assert Elements(order' + [id]) == Elements(order') + {id};
        assert (order' + [id])[|order|..] == order'[|order|..] + [id];
        visited' := visited' + {id};
        order' := order' + [id];
        queue' := queue' + [id];
      }
    }
    assert Ids(neighbors)[..|neighbors|] == Ids(neighbors);
  }

  /** Where the breadth-first loop is: `order` discovered so far, `h` of them expanded. */
  ghost predicate BfsState(adj: map<string, seq<string>>, startId: string, order: seq<string>, h: nat) {
    && WellFormed(adj) && startId in adj
    && NoDuplicates(order) && h <= |order| && (forall x | x in order :: x in adj)
    && BfsFrom(adj, order, h) == BfsOrder(adj, startId)
  }

  lemma BfsStateStart(adj: map<string, seq<string>>, startId: string)
    requires WellFormed(adj) && startId in adj
    ensures BfsState(adj, startId, [startId], 0)
  {}

  lemma BfsStateStep(adj: map<string, seq<string>>, startId: string, order: seq<string>, h: nat)
    requires BfsState(adj, startId, order, h) && h < |order|
    ensures order <= AddNew(order, adj[order[h]])
    ensures BfsState(adj, startId, AddNew(order, adj[order[h]]), h + 1)
    ensures adj.Keys - Elements(AddNew(order, adj[order[h]])[..h + 1]) < adj.Keys - Elements(order[..h])
  {
    AddNewMeaning(order, adj[order[h]]);
    FewerUnexpanded(adj, order, h);
    assert forall x | x in adj[order[h]] :: Edge(adj, order[h], x);
  }

  method Bfs(graph: Graph, startId: string, edgeKind: Option<string>, direction: Direction)
    returns (r: Result<seq<string>, GraphError>)
    requires graph.Valid()
    modifies graph`index, graph`indexed
    ensures graph.Valid()
    ensures startId !in NodeIds(graph.nodes) ==> r == Ok([])
    ensures startId in NodeIds(graph.nodes) && direction.Unknown? ==> r == Err(InvalidDirection(direction.text))
    ensures startId in NodeIds(graph.nodes) && !direction.Unknown? ==>
      var adj := Adjacency(graph.View(), edgeKind, direction);
      WellFormed(adj) && r == Ok(BfsOrder(adj, startId)) && IsBfsOrder(adj, startId, r.value)
  {
    hide Neighbors, AreNeighbors, Adjacency, Covers, NodeIds, BfsOrder, IsBfsOrder, AddNew;
    ghost var adj := Adjacency(graph.View(), edgeKind, direction);
    AdjacencyWellFormed(graph.View(), edgeKind, direction);
    var known := graph.HasNode(startId);
    if !known {
      return Ok([]);
    }
    var visited, order, queue := {startId}, [startId], [startId];
    ghost var h := 0;
    BfsStateStart(adj, startId);
    while queue != []
      invariant graph.Valid()
      invariant direction.Unknown? ==> h == 0
      invariant BfsState(adj, startId, order, h)
      invariant queue == order[h..] && visited == Elements(order)
      decreases adj.Keys - Elements(order[..h])
    {
      var cur := queue[0];
      queue := queue[1..];
      var neighbors :- graph.NeighborNodes(cur, edgeKind, direction);
      AdjacencyAt(graph.View(), edgeKind, direction, cur);
      BfsStateStep(adj, startId, order, h);
      visited, order, queue := Discover(neighbors, visited, order, queue);
      h := h + 1;
    }
    BfsOrderMeaning(adj, startId);
    r := Ok(order);
  }

  method TransitiveClosure(graph: Graph, startId: string, edgeKind: Option<string>, direction: Direction)
    returns (r: Result<set<string>, GraphError>)
    requires graph.Valid()
    modifies graph`index, graph`indexed
    ensures graph.Valid()
    ensures startId !in NodeIds(graph.nodes) ==> r == Ok({})
    ensures startId in NodeIds(graph.nodes) && direction.Unknown? ==> r == Err(InvalidDirection(direction.text))
    ensures startId in NodeIds(graph.nodes) && !direction.Unknown? ==>
      r.Ok? && forall x :: x in r.value <==> Reach(Adjacency(graph.View(), edgeKind, direction), startId, x)
  {
    hide Neighbors, AreNeighbors;
    var order :- Bfs(graph, startId, edgeKind, direction);
    assert order == [] ==> Elements(order) == {};
    r := Ok(Elements(order));
  }

  // --- Depth first ------------------------------------------------------------------

  /** The closure `_walk` of `dfs` with the two variables it shares. */
  class DepthFirst {
    const graph: Graph
    const edgeKind: Option<string>
    const direction: Direction
    var visited: set<string>
    var order: seq<string>

    constructor (graph: Graph, edgeKind: Option<string>, direction: Direction)
      ensures this.graph == graph && this.edgeKind == edgeKind && this.direction == direction
      ensures visited == {} && order == []
    {
      this.graph, this.edgeKind, this.direction := graph, edgeKind, direction;
      visited, order := {}, [];
    }

    method Walk(nodeId: string, ghost adj: map<string, seq<string>>) returns (error: Option<GraphError>)
      requires graph.Valid() && adj == Adjacency(graph.View(), edgeKind, direction)
      requires WellFormed(adj) && nodeId in adj
      modifies `visited, `order, graph`index, graph`indexed
      ensures graph.Valid()
      ensures direction.Unknown? && nodeId !in old(visited) ==> error == Some(InvalidDirection(direction.text))
      ensures !direction.Unknown? ==> error == None
      ensures !direction.Unknown? ==> order == old(order) + Preorder(adj, [nodeId], old(visited))
      ensures !direction.Unknown? ==> visited == old(visited) + Elements(Preorder(adj, [nodeId], old(visited)))
      decreases adj.Keys - visited
    {
      hide Neighbors, AreNeighbors, Adjacency, Preorder, Covers, NodeIds;
      if nodeId in visited {
        PreorderSkip(adj, nodeId, visited);
        return None;
      }
      visited := visited + {nodeId};
      order := order + [nodeId];
      var r := graph.NeighborNodes(nodeId, edgeKind, direction);
      if r.Err? {
        return Some(r.error);
      }
      ghost var start, sofar := visited, order;
      ghost var ns := adj[nodeId];
      AdjacencyAt(graph.View(), edgeKind, direction, nodeId);
      assert forall x | x in ns :: x in adj by {
        assert forall x | x in ns :: Edge(adj, nodeId, x);
      }
      PreorderNone(adj, start);
      assert ns[..0] == [];
      for i := 0 to |r.value|
        invariant graph.Valid()
        invariant forall x | x in ns :: x in adj
        invariant order == sofar + Preorder(adj, ns[..i], start)
        invariant visited == start + Elements(Preorder(adj, ns[..i], start))
      {
        PreorderNext(adj, ns, i, start);
        error := Walk(r.value[i].id, adj);
      }
      assert ns[..|ns|] == ns;
      PreorderEnter(adj, nodeId, old(visited));
      error := None;
    }
  }

  method Dfs(graph: Graph, startId: string, edgeKind: Option<string>, direction: Direction)
    returns (r: Result<seq<string>, GraphError>)
    requires graph.Valid()
    modifies graph`index, graph`indexed
    ensures graph.Valid()
    ensures startId !in NodeIds(graph.nodes) ==> r == Ok([])
    ensures startId in NodeIds(graph.nodes) && direction.Unknown? ==> r == Err(InvalidDirection(direction.text))
    ensures startId in NodeIds(graph.nodes) && !direction.Unknown? ==>
      var adj := Adjacency(graph.View(), edgeKind, direction);
      WellFormed(adj) && r == Ok(Preorder(adj, [startId], {})) && IsDfsOrder(adj, startId, r.value)
  {
    hide Neighbors, AreNeighbors;
    ghost var adj := Adjacency(graph.View(), edgeKind, direction);
    AdjacencyWellFormed(graph.View(), edgeKind, direction);
    var known := graph.HasNode(startId);
    if !known {
      return Ok([]);
    }
    var walk := new DepthFirst(graph, edgeKind, direction);
    var error := walk.Walk(startId, adj);
    if error.Some? {
      return Err(error.value);
    }
    DfsOrderMeaning(adj, startId);
    assert walk.order == Preorder(adj, [startId], {});
    r := Ok(walk.order);
  }

  // --- Shortest paths -----------------------------------------------------------------

  /** What `shortest_path` promises. */
  ghost predicate IsShortestPathAnswer(adj: map<string, seq<string>>, srcId: string, dstId: string, r: Option<seq<string>>) {
    match r
    case Some(path) => IsShortest(adj, path, srcId, dstId)
    case None => srcId !in adj || dstId !in adj || !Reach(adj, srcId, dstId)
  }

  lemma TrivialPath(adj: map<string, seq<string>>, id: string)
    ensures IsShortest(adj, [id], id, id)
  {}

  lemma PathStart(adj: map<string, seq<string>>, srcId: string)
    requires WellFormed(adj) && srcId in adj
    ensures BfsInv(adj, srcId, [srcId], 0, 0, 1) && ParentsOk(adj, srcId, [srcId], map[])
  {
    BfsInvStart(adj, srcId);
  }

  lemma Unreachable(adj: map<string, seq<string>>, srcId: string, dstId: string, order: seq<string>, d: nat, k: nat)
    requires BfsInv(adj, srcId, order, |order|, d, k) && dstId !in order
    ensures !Reach(adj, srcId, dstId)
  {
    BfsInvEnd(adj, srcId, order, d);
  }

  /** Follows `parents` from the target back to the source. */
  method WalkBack(srcId: string, dstId: string, parents: map<string, string>,
                  ghost adj: map<string, seq<string>>, ghost order: seq<string>, ghost bound: nat)
    returns (path: seq<string>)
    requires srcId in order && dstId in order && dstId in Ball(adj, srcId, bound)
    requires ParentsOk(adj, srcId, order, parents)
    ensures IsShortest(adj, path, srcId, dstId)
  {
    hide Reversed;
    ghost var distance := Distance(adj, srcId, dstId, bound);
    ghost var n := distance;
    path := [dstId];
    SingletonWalk(adj, dstId);
    while path[|path| - 1] != srcId
      invariant path != [] && path[|path| - 1] in order
      invariant path[|path| - 1] in Ball(adj, srcId, n) && |path| + n == distance + 1
      invariant WalkFromTo(adj, Reversed(path), path[|path| - 1], dstId)
      decreases n
    {
      var last := path[|path| - 1];
      assert last in parents;
      assert Nearer(adj, srcId, parents[last], last);
      WalkPrepend(adj, path, last, dstId, parents[last]);
      path := path + [parents[last]];
      n := n - 1;
    }
    ReversedLength(path);
    DistanceIsShortest(adj, Reversed(path), srcId, dstId, distance);
    path := Reversed(path);
  }

  lemma SingletonWalk(adj: map<string, seq<string>>, id: string)
    ensures WalkFromTo(adj, Reversed([id]), id, id)
  {}

  lemma ReversedLength(path: seq<string>)
    ensures |Reversed(path)| == |path|
  {}

  /** One round of the search loop: records `cur` as the parent of each unseen neighbour,
      and stops short when the target turns up. */
  method DiscoverParents(neighbors: seq<GraphNode>, cur: string, dstId: string,
                         visited: set<string>, parents: map<string, string>, queue: seq<string>,
                         ghost adj: map<string, seq<string>>, ghost srcId: string,
                         ghost order: seq<string>, ghost h: nat, ghost d: nat, ghost k: nat)
    returns (visited': set<string>, parents': map<string, string>, queue': seq<string>, found: bool,
             ghost seen: seq<string>)
    requires BfsInv(adj, srcId, order, h, d, k) && h < k && cur == order[h] && Ids(neighbors) == adj[cur]
    requires visited == Elements(order) && ParentsOk(adj, srcId, order, parents) && dstId !in order
    ensures order <= seen && visited' == Elements(seen) && ParentsOk(adj, srcId, seen, parents')
    ensures found ==> dstId in seen && dstId in Ball(adj, srcId, d + 1)
    ensures !found ==> dstId !in seen && seen == AddNew(order, adj[cur]) && queue' == queue + seen[|order|..]
  {
    hide BfsInv, ParentsOk;
    BfsInvKnown(adj, srcId, order, h, d, k);
    visited', parents', queue', found := visited, parents, queue, false;
    ghost var ns := adj[cur];
    seen := order;
    for i := 0 to |neighbors|
      invariant seen == AddNew(order, ns[..i]) && order <= seen
      invariant queue' == queue + seen[|order|..]
      invariant visited' == Elements(seen) && dstId !in seen
      invariant ParentsOk(adj, srcId, seen, parents')
    {
      var id := neighbors[i].id;
      assert ns[..i + 1][..i] == ns[..i];
      if id in visited' {
        continue;
      }
      FoundParent(adj, srcId, order, h, d, k, seen, parents', id);
      visited' := visited' + {id};
      parents' := parents'[id := cur];
      seen := seen + [id];
      if id == dstId {
        return visited', parents', queue', true, seen;
      }
      queue' := queue' + [id];
    }
    assert ns[..|neighbors|] == ns;
  }

  lemma BfsInvKnown(adj: map<string, seq<string>>, srcId: string, order: seq<string>, h: nat, d: nat, k: nat)
    requires BfsInv(adj, srcId, order, h, d, k)
    ensures h <= k <= |order| && forall x | x in order :: x in adj
  {}

  lemma FoundParent(adj: map<string, seq<string>>, srcId: string, order: seq<string>, h: nat, d: nat, k: nat,
                    seen: seq<string>, parents: map<string, string>, id: string)
    requires BfsInv(adj, srcId, order, h, d, k) && h < k && id in adj[order[h]]
    requires order <= seen && id !in seen && ParentsOk(adj, srcId, seen, parents)
    ensures ParentsOk(adj, srcId, seen + [id], parents[id := order[h]])
    ensures id in Ball(adj, srcId, d + 1)
    ensures Elements(seen + [id]) == Elements(seen) + {id}
  {
    assert seen[h] == order[h] && seen[0] == srcId;
    assert id !in order;
    NewIsNearer(adj, srcId, order, h, d, k, id);
    ParentAdded(adj, srcId, seen, parents, order[h], id);
  }

  /** The search goes on: `h` of the discovered vertices are expanded, the target is not among
      them, and the loop variables say so. */
  ghost predicate Exploring(adj: map<string, seq<string>>, srcId: string, dstId: string,
                            order: seq<string>, h: nat, d: nat, k: nat,
                            visited: set<string>, parents: map<string, string>, queue: seq<string>) {
    && BfsInv(adj, srcId, order, h, d, k) && ParentsOk(adj, srcId, order, parents)
    && srcId in order && dstId !in order && h <= |order|
    && visited == Elements(order) && queue == order[h..]
  }

  /** The search is over: the target has been discovered within `bound` edges. */
  ghost predicate Discovered(adj: map<string, seq<string>>, srcId: string, dstId: string,
                             order: seq<string>, parents: map<string, string>, bound: nat) {
    srcId in order && dstId in order && dstId in Ball(adj, srcId, bound) && ParentsOk(adj, srcId, order, parents)
  }

  /** The body of the search loop of `shortest_path`. */
  method SearchRound(graph: Graph, dstId: string, edgeKind: Option<string>, direction: Direction,
                     visited: set<string>, parents: map<string, string>, queue: seq<string>,
                     ghost adj: map<string, seq<string>>, ghost srcId: string,
                     ghost order: seq<string>, ghost h: nat, ghost d: nat, ghost k: nat)
    returns (error: Option<GraphError>, visited': set<string>, parents': map<string, string>, queue': seq<string>,
             found: bool, ghost order': seq<string>, ghost d': nat, ghost k': nat)
    requires graph.Valid() && adj == Adjacency(graph.View(), edgeKind, direction)
    requires Exploring(adj, srcId, dstId, order, h, d, k, visited, parents, queue) && queue != []
    modifies graph`index, graph`indexed
    ensures graph.Valid()
    ensures error == if direction.Unknown? then Some(InvalidDirection(direction.text)) else None
    ensures error.None? && found ==> Discovered(adj, srcId, dstId, order', parents', d' + 1)
    ensures error.None? && !found ==>
      && Exploring(adj, srcId, dstId, order', h + 1, d', k', visited', parents', queue')
      && adj.Keys - Elements(order'[..h + 1]) < adj.Keys - Elements(order[..h])
  {
    hide Neighbors, AreNeighbors, Adjacency, BfsInv, ParentsOk, Covers, Ball, Reach, AddNew, WellFormed, NodeIds;
    visited', parents', queue', found, order', d', k' := visited, parents, queue, false, order, d, k;
    var cur := queue[0];
    var neighbors := graph.NeighborNodes(cur, edgeKind, direction);
    if neighbors.Err? {
      return Some(neighbors.error), visited', parents', queue', found, order', d', k';
    }
    BfsInvKnown(adj, srcId, order, h, d, k);
    AdjacencyAt(graph.View(), edgeKind, direction, cur);
    d', k' := BfsInvSettle(adj, srcId, order, h, d, k);
    visited', parents', queue', found, order' :=
      DiscoverParents(neighbors.value, cur, dstId, visited, parents, queue[1..], adj, srcId, order, h, d', k');
    if !found {
      BfsInvExpand(adj, srcId, order, h, d', k');
      FewerUnexpanded(adj, order, h);
    }
    error := None;
  }

  lemma ExploringStarts(adj: map<string, seq<string>>, srcId: string, dstId: string)
    requires WellFormed(adj) && srcId in adj && srcId != dstId
    ensures Exploring(adj, srcId, dstId, [srcId], 0, 0, 1, {srcId}, map[], [srcId])
  {
    PathStart(adj, srcId);
  }

  lemma ExploredAll(adj: map<string, seq<string>>, srcId: string, dstId: string,
                    order: seq<string>, h: nat, d: nat, k: nat,
                    visited: set<string>, parents: map<string, string>)
    requires Exploring(adj, srcId, dstId, order, h, d, k, visited, parents, [])
    ensures !Reach(adj, srcId, dstId)
  {
    hide BfsInv, Reach;
    assert h == |order|;
    Unreachable(adj, srcId, dstId, order, d, k);
  }

  lemma ExploringFacts(adj: map<string, seq<string>>, srcId: string, dstId: string,
                       order: seq<string>, h: nat, d: nat, k: nat,
                       visited: set<string>, parents: map<string, string>, queue: seq<string>)
    requires Exploring(adj, srcId, dstId, order, h, d, k, visited, parents, queue)
    ensures h <= |order|
  {}

  method ShortestPath(graph: Graph, srcId: string, dstId: string, edgeKind: Option<string>, direction: Direction)
    returns (r: Result<Option<seq<string>>, GraphError>)
    requires graph.Valid()
    modifies graph`index, graph`indexed
    ensures graph.Valid()
    ensures r.Err? <==>
      direction.Unknown? && srcId != dstId && srcId in NodeIds(graph.nodes) && dstId in NodeIds(graph.nodes)
    ensures r.Err? ==> r.error == InvalidDirection(direction.text)
    ensures r.Ok? ==> IsShortestPathAnswer(Adjacency(graph.View(), edgeKind, direction), srcId, dstId, r.value)
  {
    hide Neighbors, AreNeighbors, Adjacency, Exploring, ParentsOk, IsShortest, Covers, Ball, Reach, WellFormed, NodeIds;
    ghost var adj := Adjacency(graph.View(), edgeKind, direction);
    AdjacencyWellFormed(graph.View(), edgeKind, direction);
    var hasSrc := graph.HasNode(srcId);
    if srcId == dstId && hasSrc {
      TrivialPath(adj, srcId);
      return Ok(Some([srcId]));
    }
    var hasDst := graph.HasNode(dstId);
    if !hasSrc || !hasDst {
      return Ok(None);
    }
    var parents: map<string, string> := map[];
    var visited, queue, found := {srcId}, [srcId], false;
    ghost var order, h, d, k := [srcId], 0, 0, 1;
    ExploringStarts(adj, srcId, dstId);
    while queue != [] && !found
      invariant graph.Valid()
      invariant direction.Unknown? ==> queue != [] && !found
      invariant !found ==> h <= |order| && Exploring(adj, srcId, dstId, order, h, d, k, visited, parents, queue)
      invariant found ==> Discovered(adj, srcId, dstId, order, parents, d + 1)
      decreases !found, if found then {} else adj.Keys - Elements(order[..h])
    {
      ExploringFacts(adj, srcId, dstId, order, h, d, k, visited, parents, queue);
      var error;
      error, visited, parents, queue, found, order, d, k :=
        SearchRound(graph, dstId, edgeKind, direction, visited, parents, queue, adj, srcId, order, h, d, k);
      if error.Some? {
        return Err(error.value);
      }
      h := h + 1;
      if !found {
        ExploringFacts(adj, srcId, dstId, order, h, d, k, visited, parents, queue);
      }
    }
    if !found {
      ExploredAll(adj, srcId, dstId, order, h, d, k, visited, parents);
      return Ok(None);
    }
    var path := WalkBack(srcId, dstId, parents, adj, order, d + 1);
    r := Ok(Some(path));
  }
}
