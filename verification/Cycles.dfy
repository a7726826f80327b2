/** `cycles`: Tarjan's algorithm over the mutable graph. */
module Cycles {
  import opened Outcomes
  import opened Digraphs
  import opened Sequences
  import opened Searches
  import opened Graphs
  import opened GraphModels
  import opened Algebra
  import opened TarjanTheory

  /** The closure `_strongconnect` with the variables it shares. */
  class StronglyConnected {
    const graph: Graph
    const edgeKind: Option<string>
    var indexOf: map<string, nat>
    var lowlink: map<string, nat>
    var onStack: set<string>
    var stack: seq<string>
    var sccs: seq<seq<string>>
    var counter: nat

    ghost function State(): Progress<string>
      reads this
    {
      Progress(indexOf, stack, sccs)
    }

    constructor (graph: Graph, edgeKind: Option<string>)
      ensures this.graph == graph && this.edgeKind == edgeKind
      ensures State() == Progress(map[], [], []) && lowlink == map[] && onStack == {} && counter == 0
    {
      this.graph, this.edgeKind := graph, edgeKind;
      indexOf, lowlink, onStack, stack, sccs, counter := map[], map[], {}, [], [], 0;
    }

    /** The targets of the outgoing edges, unknown ones left out. */
    method Successors(v: string, ghost adj: map<string, seq<string>>) returns (ws: seq<string>)
      requires graph.Valid() && adj == Adjacency(graph.View(), edgeKind, Out) && v in adj
      modifies graph`index, graph`indexed
      ensures graph.Valid() && ws == adj[v]
    {
      hide Adjacency, Covers;
      var edges := graph.OutEdges(v, edgeKind);
      ws := [];
      for i := 0 to |edges|
        invariant graph.Valid() && ws == Ids(FarEnds(NodeMap(graph.nodes), edges[..i], true))
      {
        var known := graph.HasNode(edges[i].dstId);
        FarEndsStep(graph.nodes, edges, i);
        if known {
          ws := ws + [edges[i].dstId];
        }
      }
      assert edges[..|edges|] == edges;
      AdjacencyAt(graph.View(), edgeKind, Out, v);
    }

    method StrongConnect(v: string, ghost adj: map<string, seq<string>>, ghost gray: set<string>)
      returns (ghost seg: seq<string>)
      requires graph.Valid() && adj == Adjacency(graph.View(), edgeKind, Out) && WellFormed(adj)
      requires Inv(adj, gray, State(), counter) && onStack == Elements(stack)
      requires v in adj && v !in indexOf && forall x | x in gray :: Reach(adj, x, v)
      modifies `indexOf, `lowlink, `onStack, `stack, `sccs, `counter, graph`index, graph`indexed
      ensures graph.Valid() && onStack == Elements(stack)
      ensures v in lowlink
      ensures Returned(adj, gray, old(State()), old(counter), State(), counter, v, seg, lowlink[v])
      ensures forall x | x in old(indexOf) && x in old(lowlink) :: x in lowlink && lowlink[x] == old(lowlink[x])
      decreases adj.Keys - indexOf.Keys, 0
    {
      hide Adjacency, Covers, Reach, Inv, Returned, Running, NoDuplicates, NodeIds;
      ghost var p0, c0 := State(), counter;
      indexOf := indexOf[v := counter];
      lowlink := lowlink[v := counter];
      counter := counter + 1;
      stack := stack + [v];
      onStack := onStack + {v};
      Starts(adj, gray, p0, c0, v);
      assert State() == Enter(p0, v, c0);
      assert v in adj.Keys - p0.indexOf.Keys && indexOf.Keys == p0.indexOf.Keys + {v};
      assert adj.Keys - indexOf.Keys < adj.Keys - p0.indexOf.Keys;
      seg := LookAtSuccessors(v, adj, gray, p0, c0);
      seg := Finish(v, adj, gray, p0, c0, seg);
    }

    /** The loop of `_strongconnect` over the successors of `v`. */
    method LookAtSuccessors(v: string, ghost adj: map<string, seq<string>>, ghost gray: set<string>,
                            ghost p0: Progress<string>, ghost c0: nat)
      returns (ghost seg: seq<string>)
      requires graph.Valid() && adj == Adjacency(graph.View(), edgeKind, Out) && WellFormed(adj)
      requires onStack == Elements(stack) && v in lowlink && v in adj
      requires Running(adj, gray, p0, c0, State(), counter, v, [], lowlink[v], [])
      requires forall x | x in gray :: Reach(adj, x, v)
      modifies `indexOf, `lowlink, `onStack, `stack, `sccs, `counter, graph`index, graph`indexed
      ensures graph.Valid() && onStack == Elements(stack) && v in lowlink
      ensures Running(adj, gray, p0, c0, State(), counter, v, seg, lowlink[v], adj[v])
      ensures forall x | x in old(indexOf) && x in old(lowlink) && x != v :: x in lowlink && lowlink[x] == old(lowlink[x])
      decreases adj.Keys - indexOf.Keys, 2
    {
      hide Adjacency, Covers, Reach, Inv, Returned, Running, NoDuplicates, NodeIds;
      seg := [];
      var ws := Successors(v, adj);
      for i := 0 to |ws|
        invariant graph.Valid() && onStack == Elements(stack) && v in lowlink
        invariant Running(adj, gray, p0, c0, State(), counter, v, seg, lowlink[v], ws[..i])
        invariant old(indexOf).Keys <= indexOf.Keys
        invariant forall x | x in old(indexOf) && x in old(lowlink) && x != v :: x in lowlink && lowlink[x] == old(lowlink[x])
      {
        assert Edge(adj, v, ws[i]) && ws[..i + 1] == ws[..i] + [ws[i]];
        seg := LookAt(v, ws[i], adj, gray, p0, c0, seg, ws[..i]);
      }
      assert ws[..|ws|] == ws;
    }

    /** After the loop: `v` closes a component, or stays on the stack. */
    method Finish(v: string, ghost adj: map<string, seq<string>>, ghost gray: set<string>,
                  ghost p0: Progress<string>, ghost c0: nat, ghost seg: seq<string>)
      returns (ghost left: seq<string>)
      requires onStack == Elements(stack) && v in lowlink && v in adj
      requires Running(adj, gray, p0, c0, State(), counter, v, seg, lowlink[v], adj[v])
      modifies `onStack, `stack, `sccs
      ensures onStack == Elements(stack)
      ensures Returned(adj, gray, p0, c0, State(), counter, v, left, lowlink[v])
    {
      hide Inv, Returned, Running, NoDuplicates;
      RunningFacts(adj, gray, p0, c0, State(), counter, v, seg, lowlink[v], adj[v]);
      if lowlink[v] == indexOf[v] {
        ghost var p := State();
        var comp := PopComponent(v, p0.stack, seg);
        sccs := sccs + [comp];
        ReversedSame([v] + seg);
        Closes(adj, gray, p0, c0, p, counter, v, seg, adj[v], comp);
        left := [];
      } else {
        Stays(adj, gray, p0, c0, State(), counter, v, seg, lowlink[v], adj[v]);
        left := [v] + seg;
      }
    }

    /** The loop body of `_strongconnect`: a successor is met for the first time, or on the stack,
        or in a finished component. */
    method LookAt(v: string, w: string, ghost adj: map<string, seq<string>>, ghost gray: set<string>,
                  ghost p0: Progress<string>, ghost c0: nat, ghost seg: seq<string>, ghost ws: seq<string>)
      returns (ghost more: seq<string>)
      requires graph.Valid() && adj == Adjacency(graph.View(), edgeKind, Out) && WellFormed(adj)
      requires onStack == Elements(stack) && v in lowlink && Edge(adj, v, w)
      requires Running(adj, gray, p0, c0, State(), counter, v, seg, lowlink[v], ws)
      requires forall x | x in gray :: Reach(adj, x, v)
      modifies `indexOf, `lowlink, `onStack, `stack, `sccs, `counter, graph`index, graph`indexed
      ensures graph.Valid() && onStack == Elements(stack) && v in lowlink
      ensures Running(adj, gray, p0, c0, State(), counter, v, more, lowlink[v], ws + [w])
      ensures old(indexOf).Keys <= indexOf.Keys
      ensures forall x | x in old(indexOf) && x in old(lowlink) && x != v :: x in lowlink && lowlink[x] == old(lowlink[x])
      decreases adj.Keys - indexOf.Keys, 1
    {
      hide Adjacency, Covers, Reach, Inv, Returned, Running, NoDuplicates, NodeIds;
      ghost var p, c, low := State(), counter, lowlink[v];
      RunningFacts(adj, gray, p0, c0, p, c, v, seg, low, ws);
      more := seg;
      if w !in indexOf {
        ChildReady(adj, gray, p0, c0, p, c, v, seg, low, ws, w);
        ghost var seg' := StrongConnect(w, adj, gray + {v});
        AfterChild(adj, gray, p0, c0, p, c, v, seg, low, ws, w, State(), counter, seg', lowlink[w]);
        ReturnedFacts(adj, gray + {v}, p, c, State(), counter, w, seg', lowlink[w]);
        more := seg + seg';
        lowlink := lowlink[v := Min(lowlink[v], lowlink[w])];
      } else {
        AfterSeen(adj, gray, p0, c0, p, c, v, seg, low, ws, w);
        if w in onStack {
          lowlink := lowlink[v := Min(lowlink[v], indexOf[w])];
        }
      }
    }

    /** Pops the stack down to and including `v`. */
    method PopComponent(v: string, ghost below: seq<string>, ghost seg: seq<string>) returns (comp: seq<string>)
      requires stack == below + [v] + seg && NoDuplicates([v] + seg) && onStack == Elements(stack)
      requires NoDuplicates(stack)
      modifies `stack, `onStack
      ensures stack == below && onStack == Elements(stack)
      ensures comp == Reversed([v] + seg)
    {
      comp := [];
      ghost var t := [v] + seg;
      ghost var m := |t|;
      assert stack == below + t;
      while true
        invariant 0 < m <= |t| && stack == below + t[..m] && comp == Reversed(t[m..])
        invariant onStack == Elements(stack) && NoDuplicates(stack)
        decreases m
      {
        var w := stack[|stack| - 1];
        assert w == t[m - 1];
        stack := stack[..|stack| - 1];
        assert stack == below + t[..m - 1];
        onStack := onStack - {w};
        assert Reversed(t[m - 1..]) == Reversed(t[m..]) + [w];
        comp := comp + [w];
        m := m - 1;
        if w == v {
          assert t[0] == v && t[m..] == t;
          break;
        }
      }
    }
  }

  lemma FarEndsStep(nodes: seq<GraphNode>, edges: seq<GraphEdge>, i: nat)
    requires i < |edges|
    ensures var before := FarEnds(NodeMap(nodes), edges[..i], true);
      Ids(FarEnds(NodeMap(nodes), edges[..i + 1], true)) ==
      Ids(before) + if edges[i].dstId in NodeIds(nodes) then [edges[i].dstId] else []
  {
    assert edges[..i + 1][..i] == edges[..i];
    NodeMapMeaning(nodes);
  }

  /** What `cycles` promises: components in full, no vertex in two of them or twice in one,
      together exactly the vertices that lie on a cycle, and none leading to a later one. */
  ghost predicate AreTheCycles(adj: map<string, seq<string>>, found: seq<seq<string>>) {
    && (forall c | c in found :: IsScc(adj, c))
    && Disjoint(found)
    && SinksFirst(adj, found)
    && (forall v :: v in Members(found) <==> OnCycle(adj, v))
  }

  lemma OnCycleIsKnown(adj: map<string, seq<string>>, v: string)
    requires OnCycle(adj, v)
    ensures v in adj
  {}

  lemma SelfLoop(g: Snapshot, kind: Option<string>, v: string)
    requires v in NodeIds(g.nodes)
    ensures Edge(Adjacency(g, kind, Out), v, v) <==>
      exists e :: e in OfKind(EdgesFrom(g.edges, v), kind) && e.dstId == v
  {
    AdjacencyMeaning(g, kind, Out, v, v);
    OutEdgesMeaning(g.edges, v, kind);
    assert forall e :: e in OfKind(EdgesFrom(g.edges, v), kind) && e.dstId == v <==> e in g.edges && Links(e, kind, Out, v, v);
  }

  method Cycles(graph: Graph, edgeKind: Option<string>) returns (cyclic: seq<seq<string>>)
    requires graph.Valid()
    modifies graph`index, graph`indexed
    ensures graph.Valid()
    ensures AreTheCycles(Adjacency(graph.View(), edgeKind, Out), cyclic)
  {
    hide Neighbors, AreNeighbors, Covers, Adjacency, Inv, Returned, IsScc, OnCycle, Reach;
    ghost var adj := Adjacency(graph.View(), edgeKind, Out);
    AdjacencyWellFormed(graph.View(), edgeKind, Out);
    var run := new StronglyConnected(graph, edgeKind);
    NothingYet(adj);
    for i := 0 to |graph.nodes|
      invariant graph.Valid() && run.onStack == Elements(run.stack)
      invariant Inv(adj, {}, run.State(), run.counter)
      invariant forall j | 0 <= j < i :: graph.nodes[j].id in run.indexOf
    {
      var id := graph.nodes[i].id;
      if id !in run.indexOf {
        ghost var p0, c0 := run.State(), run.counter;
        ghost var seg := run.StrongConnect(id, adj, {});
        ReturnedFacts(adj, {}, p0, c0, run.State(), run.counter, id, seg, run.lowlink[id]);
      }
    }
    AllNumbered(adj, run.State(), run.counter, graph.nodes);
    cyclic := KeepCyclic(graph, edgeKind, run.sccs, adj);
    CyclicSinksFirst(adj, run.sccs);
    CyclicOfMeaning(adj, run.sccs);
    forall v | OnCycle(adj, v) ensures v in adj {
      OnCycleIsKnown(adj, v);
    }
  }

  lemma AllNumbered(adj: map<string, seq<string>>, p: Progress<string>, counter: nat, nodes: seq<GraphNode>)
    requires Inv(adj, {}, p, counter) && adj.Keys == NodeIds(nodes)
    requires forall j | 0 <= j < |nodes| :: nodes[j].id in p.indexOf
    ensures Members(p.sccs) == adj.Keys && ComponentsOk(adj, p.sccs)
  {
    hide IsScc;
    forall id | id in adj.Keys ensures id in p.indexOf {
      var n :| n in nodes && n.id == id;
    }
  }

  /** The last loop of `cycles`: components of two or more, and self-loops. */
  method KeepCyclic(graph: Graph, edgeKind: Option<string>, sccs: seq<seq<string>>, ghost adj: map<string, seq<string>>)
    returns (cyclic: seq<seq<string>>)
    requires graph.Valid() && adj == Adjacency(graph.View(), edgeKind, Out) && Members(sccs) == adj.Keys
    modifies graph`index, graph`indexed
    ensures graph.Valid() && cyclic == CyclicOf(adj, sccs)
  {
    hide Neighbors, AreNeighbors, Covers, Adjacency;
    cyclic := [];
    for i := 0 to |sccs|
      invariant graph.Valid() && cyclic == CyclicOf(adj, sccs[..i])
    {
      var comp := sccs[i];
      assert comp in sccs;
      assert sccs[..i + 1][..i] == sccs[..i];
      if |comp| > 1 {
        cyclic := cyclic + [comp];
      } else if |comp| == 1 {
        var v := comp[0];
        assert v in comp && v in Members(sccs);
        var out := graph.OutEdges(v, edgeKind);
        SelfLoop(graph.View(), edgeKind, v);
        if exists e | e in out :: e.dstId == v {
          assert comp == [v];
          cyclic := cyclic + [[v]];
        }
      }
    }
    assert sccs[..|sccs|] == sccs;
  }
}
