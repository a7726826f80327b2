/** What the graph searches compute, as functions of an adjacency map, and what that
    means in terms of walks. The methods of `Algebra` are proved to compute these. */
module Searches {
  import opened Digraphs
  import opened Sequences

  /** Successor lists name only known vertices. */
  ghost predicate WellFormed<V(!new)>(adj: map<V, seq<V>>) {
    forall a, b :: Edge(adj, a, b) ==> b in adj
  }

  // --- Which vertex comes next --------------------------------------------------------

  /** All that `done[j]` leads to is done. */
  ghost predicate Exhausted<V(!new)>(adj: map<V, seq<V>>, done: seq<V>, j: int) {
    0 <= j < |done| && done[j] in adj && forall y | y in adj[done[j]] :: y in done
  }

  /** `x` is the first successor of `done[j]` that is not done yet. */
  ghost predicate FirstNewOf<V(!new)>(adj: map<V, seq<V>>, done: seq<V>, j: int, x: V) {
    && 0 <= j < |done| && done[j] in adj && x !in done
    && exists k :: 0 <= k < |adj[done[j]]| && adj[done[j]][k] == x && forall y | y in adj[done[j]][..k] :: y in done
  }

  /** Breadth first goes on from the earliest vertex that still leads to a new one. */
  ghost predicate FromEarliest<V(!new)>(adj: map<V, seq<V>>, done: seq<V>, x: V) {
    exists j :: FirstNewOf(adj, done, j, x) && forall i | 0 <= i < j :: Exhausted(adj, done, i)
  }

  /** Depth first goes on from the latest vertex that still leads to a new one. */
  ghost predicate FromLatest<V(!new)>(adj: map<V, seq<V>>, done: seq<V>, x: V) {
    exists j :: FirstNewOf(adj, done, j, x) && forall i | j < i < |done| :: Exhausted(adj, done, i)
  }

  ghost predicate IsBreadthFirst<V(!new)>(adj: map<V, seq<V>>, order: seq<V>) {
    forall i | 0 < i < |order| :: FromEarliest(adj, order[..i], order[i])
  }

  ghost predicate IsDepthFirst<V(!new)>(adj: map<V, seq<V>>, order: seq<V>) {
    forall i | 0 < i < |order| :: FromLatest(adj, order[..i], order[i])
  }

  lemma ExhaustedStays<V(!new)>(adj: map<V, seq<V>>, done: seq<V>, more: seq<V>, j: int)
    requires Exhausted(adj, done, j) && done <= more
    ensures Exhausted(adj, more, j)
  {
    assert forall y | y in done :: y in more;
    assert more[j] == done[j];
  }

  lemma BreadthFirstNext<V(!new)>(adj: map<V, seq<V>>, order: seq<V>, x: V)
    requires IsBreadthFirst(adj, order) && FromEarliest(adj, order, x)
    ensures IsBreadthFirst(adj, order + [x])
  {
    hide FromEarliest;
    var more := order + [x];
    forall i | 0 < i < |more| ensures FromEarliest(adj, more[..i], more[i]) {
      assert more[..i] == order[..i];
      assert order[..|order|] == order;
    }
  }

  lemma DepthFirstNext<V(!new)>(adj: map<V, seq<V>>, order: seq<V>, x: V)
    requires IsDepthFirst(adj, order) && FromLatest(adj, order, x)
    ensures IsDepthFirst(adj, order + [x])
  {
    hide FromLatest;
    var more := order + [x];
    forall i | 0 < i < |more| ensures FromLatest(adj, more[..i], more[i]) {
      assert more[..i] == order[..i];
      assert order[..|order|] == order;
    }
  }

  // --- Breadth first ------------------------------------------------------------

  /** Appends to `order` the members of `ns` it does not have yet, in order. */
  function AddNew<V(==)>(order: seq<V>, ns: seq<V>): seq<V> {
    if ns == [] then order
    else
      var o := AddNew(order, ns[..|ns| - 1]);
      if ns[|ns| - 1] in o then o else o + [ns[|ns| - 1]]
  }

  lemma {:induction false} AddNewMeaning<V(!new)>(order: seq<V>, ns: seq<V>)
    requires NoDuplicates(order)
    ensures order <= AddNew(order, ns) && NoDuplicates(AddNew(order, ns))
    ensures forall x :: x in AddNew(order, ns) <==> x in order || x in ns
  {
    if ns != [] {
      assert ns == ns[..|ns| - 1] + [ns[|ns| - 1]];
      AddNewMeaning(order, ns[..|ns| - 1]);
    }
  }

  /** `order` lists the discovered vertices; those before `h` have been expanded. */
  ghost function BfsFrom<V(!new)>(adj: map<V, seq<V>>, order: seq<V>, h: nat): seq<V>
    requires WellFormed(adj) && NoDuplicates(order) && h <= |order|
    requires forall x | x in order :: x in adj
    decreases adj.Keys - Elements(order[..h])
  {
    if h == |order| then order
    else
      AddNewMeaning(order, adj[order[h]]);
      assert forall x | x in adj[order[h]] :: Edge(adj, order[h], x);
      FewerUnexpanded(adj, order, h);
      BfsFrom(adj, AddNew(order, adj[order[h]]), h + 1)
  }

  ghost function BfsOrder<V(!new)>(adj: map<V, seq<V>>, start: V): seq<V>
    requires WellFormed(adj) && start in adj
  {
    BfsFrom(adj, [start], 0)
  }

  /** The state of the search while it expands distance `d`: the first `k` discovered are
      those within distance `d`, the others are one further. */
  ghost predicate BfsInv<V(!new)>(adj: map<V, seq<V>>, start: V, order: seq<V>, h: nat, d: nat, k: nat) {
    && WellFormed(adj) && NoDuplicates(order)
    && (forall x | x in order :: x in adj)
    && 0 < k <= |order| && h <= k && order[0] == start
    && Elements(order[..k]) == Ball(adj, start, d)
    && Elements(order) <= Ball(adj, start, d + 1)
    && (d > 0 ==> Ball(adj, start, d - 1) <= Elements(order[..h]))
    && Expanded(adj, order, h)
    && ByDistance(adj, start, order)
  }

  /** The successors of the first `h` vertices are all discovered. */
  ghost predicate Expanded<V(!new)>(adj: map<V, seq<V>>, order: seq<V>, h: nat)
    requires h <= |order| && forall x | x in order :: x in adj
  {
    forall i | 0 <= i < h :: Elements(adj[order[i]]) <= Elements(order)
  }

  /** Earlier vertices are no further away than later ones. */
  ghost predicate ByDistance<V(!new)>(adj: map<V, seq<V>>, start: V, order: seq<V>) {
    forall i, j, n: nat | 0 <= i < j < |order| && order[j] in Ball(adj, start, n) :: order[i] in Ball(adj, start, n)
  }

  lemma BfsInvStart<V(!new)>(adj: map<V, seq<V>>, start: V)
    requires WellFormed(adj) && start in adj
    ensures BfsInv(adj, start, [start], 0, 0, 1)
  {
    BallHasCentre(adj, start, 1);
    assert [start][..1] == [start];
  }

  lemma BfsInvExpand<V(!new)>(adj: map<V, seq<V>>, start: V, order: seq<V>, h: nat, d: nat, k: nat)
    requires BfsInv(adj, start, order, h, d, k) && h < k
    ensures BfsInv(adj, start, AddNew(order, adj[order[h]]), h + 1, d, k)
  {
    hide Ball, ByDistance, Expanded, Edge;
    var grown := AddNew(order, adj[order[h]]);
    AddNewMeaning(order, adj[order[h]]);
    ExpandedStep(adj, order, h);
    NewWithinBall(adj, start, order, h, d, k);
    assert grown[..k] == order[..k];
    ByDistanceKept(adj, start, order, grown, d, k);
    assert grown[..h + 1] == order[..h] + [order[h]];
  }

  lemma ExpandedStep<V(!new)>(adj: map<V, seq<V>>, order: seq<V>, h: nat)
    requires WellFormed(adj) && NoDuplicates(order) && h < |order| && forall x | x in order :: x in adj
    requires Expanded(adj, order, h)
    ensures forall x | x in AddNew(order, adj[order[h]]) :: x in adj
    ensures h + 1 <= |AddNew(order, adj[order[h]])| && Expanded(adj, AddNew(order, adj[order[h]]), h + 1)
  {
    var grown := AddNew(order, adj[order[h]]);
    AddNewMeaning(order, adj[order[h]]);
    forall x | x in grown ensures x in adj {
      assert x in order || Edge(adj, order[h], x);
    }
    forall i | 0 <= i < h + 1 ensures Elements(adj[grown[i]]) <= Elements(grown) {
      assert grown[i] == order[i];
      assert Elements(order) <= Elements(grown);
    }
  }

  lemma NewWithinBall<V(!new)>(adj: map<V, seq<V>>, start: V, order: seq<V>, h: nat, d: nat, k: nat)
    requires NoDuplicates(order) && h < k <= |order| && order[h] in adj
    requires Elements(order[..k]) == Ball(adj, start, d) && Elements(order) <= Ball(adj, start, d + 1)
    ensures forall x | x in AddNew(order, adj[order[h]]) :: x in Ball(adj, start, d + 1)
  {
    AddNewMeaning(order, adj[order[h]]);
    assert order[h] in Elements(order[..k]) by {
      assert order[..k][h] == order[h];
    }
    forall x | x in AddNew(order, adj[order[h]]) ensures x in Ball(adj, start, d + 1) {
      assert x in Elements(order) || x in Step(adj, Ball(adj, start, d));
    }
  }

  lemma ByDistanceKept<V(!new)>(adj: map<V, seq<V>>, start: V, order: seq<V>, grown: seq<V>, d: nat, k: nat)
    requires ByDistance(adj, start, order) && order <= grown && NoDuplicates(grown) && k <= |order|
    requires Elements(order[..k]) == Ball(adj, start, d)
    requires forall x | x in grown :: x in Ball(adj, start, d + 1)
    ensures ByDistance(adj, start, grown)
  {
    forall i, j, n: nat | 0 <= i < j < |grown| && grown[j] in Ball(adj, start, n)
      ensures grown[i] in Ball(adj, start, n)
    {
      if j >= |order| {
        assert grown[..k] == order[..k];
        LateIsFar(adj, start, grown, d, k, j, n);
        BallMonotone(adj, start, d + 1, n);
        assert grown[i] in grown;
      } else {
        assert grown[i] == order[i] && grown[j] == order[j];
      }
    }
  }

  /** A vertex discovered after the first `k` is further than `d`. */
  lemma LateIsFar<V(!new)>(adj: map<V, seq<V>>, start: V, order: seq<V>, d: nat, k: nat, j: nat, n: nat)
    requires NoDuplicates(order) && k <= j < |order| && Elements(order[..k]) == Ball(adj, start, d)
    requires order[j] in Ball(adj, start, n)
    ensures n > d
  {
    if n <= d {
      BallMonotone(adj, start, n, d);
    }
  }

  lemma BfsInvDeeper<V(!new)>(adj: map<V, seq<V>>, start: V, order: seq<V>, d: nat, k: nat)
    requires BfsInv(adj, start, order, k, d, k)
    ensures BfsInv(adj, start, order, k, d + 1, |order|)
    ensures Elements(order) == Ball(adj, start, d + 1)
  {
    forall y | y in Ball(adj, start, d + 1) ensures y in order {
      if y in Ball(adj, start, d) {
        assert y in order[..k];
      } else {
        var x :| x in Ball(adj, start, d) && x in adj && y in adj[x];
        assert x in order[..k];
        var i :| 0 <= i < k && order[..k][i] == x;
        assert y in Elements(adj[order[i]]);
      }
    }
    assert order[..|order|] == order;
    BallMonotone(adj, start, d + 1, d + 2);
  }

  lemma BfsInvEnd<V(!new)>(adj: map<V, seq<V>>, start: V, order: seq<V>, d: nat)
    requires BfsInv(adj, start, order, |order|, d, |order|)
    ensures order != [] && order[0] == start && NoDuplicates(order)
    ensures (forall x :: x in order <==> Reach(adj, start, x)) && ByDistance(adj, start, order)
  {
    BfsInvDeeper(adj, start, order, d, |order|);
    assert order[..|order|] == order;
    assert Closed(adj, Ball(adj, start, d)) by {
      forall a, b | a in Ball(adj, start, d) && Edge(adj, a, b) ensures b in Ball(adj, start, d) {
        assert b in Step(adj, Ball(adj, start, d));
      }
    }
    BallFixpoint(adj, start, d);
    forall x ensures x in order <==> Reach(adj, start, x) {
      assert x in Elements(order) <==> x in Ball(adj, start, d);
    }
  }

  /** Moves on to the next distance when the current one is used up. */
  lemma BfsInvSettle<V(!new)>(adj: map<V, seq<V>>, start: V, order: seq<V>, h: nat, d: nat, k: nat)
    returns (d': nat, k': nat)
    requires BfsInv(adj, start, order, h, d, k) && h < |order|
    ensures BfsInv(adj, start, order, h, d', k') && h < k'
  {
    d', k' := d, k;
    if h == k {
      BfsInvDeeper(adj, start, order, d, k);
      d', k' := d + 1, |order|;
    }
  }

  /** The search is over: every vertex of the list has been expanded. */
  ghost predicate IsExpanded<V(!new)>(adj: map<V, seq<V>>, start: V, order: seq<V>) {
    exists d: nat :: BfsInv(adj, start, order, |order|, d, |order|)
  }

  lemma {:induction false} BfsFromMeaning<V(!new)>(adj: map<V, seq<V>>, start: V, order: seq<V>, h: nat, d: nat, k: nat)
    requires BfsInv(adj, start, order, h, d, k)
    ensures IsExpanded(adj, start, BfsFrom(adj, order, h))
    decreases adj.Keys - Elements(order[..h])
  {
    if h == |order| {
      assert BfsInv(adj, start, order, |order|, d, |order|);
    } else {
      var d', k' := BfsInvSettle(adj, start, order, h, d, k);
      BfsInvExpand(adj, start, order, h, d', k');
      FewerUnexpanded(adj, order, h);
      BfsFromMeaning(adj, start, AddNew(order, adj[order[h]]), h + 1, d', k');
    }
  }

  lemma FewerUnexpanded<V(!new)>(adj: map<V, seq<V>>, order: seq<V>, h: nat)
    requires NoDuplicates(order) && h < |order| && order[h] in adj
    ensures var grown := AddNew(order, adj[order[h]]);
      h + 1 <= |grown| && adj.Keys - Elements(grown[..h + 1]) < adj.Keys - Elements(order[..h])
  {
    var grown := AddNew(order, adj[order[h]]);
    AddNewMeaning(order, adj[order[h]]);
    assert grown[..h + 1] == order[..h] + [order[h]];
    assert Elements(grown[..h + 1]) == Elements(order[..h]) + {order[h]};
    assert order[h] in adj.Keys - Elements(order[..h]);
  }

  /** Appending the new successors of the vertex to expand, one after the other. */
  lemma {:induction false} AddNewFromEarliest<V(!new)>(adj: map<V, seq<V>>, order: seq<V>, h: nat, n: nat)
    requires NoDuplicates(order) && h < |order| && order[h] in adj && n <= |adj[order[h]]| && IsBreadthFirst(adj, order)
    requires forall i | 0 <= i < h :: Exhausted(adj, order, i)
    ensures IsBreadthFirst(adj, AddNew(order, adj[order[h]][..n]))
  {
    hide IsBreadthFirst;
    var ns := adj[order[h]];
    if n == 0 {
      assert ns[..0] == [];
    } else {
      AddNewFromEarliest(adj, order, h, n - 1);
      AddNewMeaning(order, ns[..n - 1]);
      assert ns[..n][..n - 1] == ns[..n - 1];
      var o := AddNew(order, ns[..n - 1]);
      if ns[n - 1] !in o {
        assert FirstNewOf(adj, o, h, ns[n - 1]);
        forall i | 0 <= i < h ensures Exhausted(adj, o, i) {
          ExhaustedStays(adj, order, o, i);
        }
        BreadthFirstNext(adj, o, ns[n - 1]);
      }
    }
  }

  lemma {:induction false} BfsFromEarliest<V(!new)>(adj: map<V, seq<V>>, order: seq<V>, h: nat)
    requires WellFormed(adj) && NoDuplicates(order) && h <= |order| && forall x | x in order :: x in adj
    requires IsBreadthFirst(adj, order) && forall i | 0 <= i < h :: Exhausted(adj, order, i)
    ensures IsBreadthFirst(adj, BfsFrom(adj, order, h))
    decreases adj.Keys - Elements(order[..h])
  {
    hide IsBreadthFirst;
    if h < |order| {
      var ns := adj[order[h]];
      var grown := AddNew(order, ns);
      AddNewMeaning(order, ns);
      assert forall x | x in ns :: Edge(adj, order[h], x);
      assert ns[..|ns|] == ns;
      AddNewFromEarliest(adj, order, h, |ns|);
      forall i | 0 <= i < h + 1 ensures Exhausted(adj, grown, i) {
        if i < h {
          ExhaustedStays(adj, order, grown, i);
        }
      }
      FewerUnexpanded(adj, order, h);
      BfsFromEarliest(adj, grown, h + 1);
    }
  }

  /** What breadth-first search promises of the list it returns. */
  ghost predicate IsBfsOrder<V(!new)>(adj: map<V, seq<V>>, start: V, order: seq<V>) {
    && order != [] && order[0] == start
    && NoDuplicates(order)
    && (forall x :: x in order <==> Reach(adj, start, x))
    && ByDistance(adj, start, order)
    && IsBreadthFirst(adj, order)
  }

  lemma BfsOrderMeaning<V(!new)>(adj: map<V, seq<V>>, start: V)
    requires WellFormed(adj) && start in adj
    ensures IsBfsOrder(adj, start, BfsOrder(adj, start))
  {
    BfsInvStart(adj, start);
    BfsFromMeaning(adj, start, [start], 0, 0, 1);
    var r := BfsOrder(adj, start);
    var d: nat :| BfsInv(adj, start, r, |r|, d, |r|);
    BfsInvEnd(adj, start, r, d);
    BfsFromEarliest(adj, [start], 0);
  }

  // --- Shortest paths -------------------------------------------------------------

  ghost predicate IsShortest<V(!new)>(adj: map<V, seq<V>>, p: seq<V>, a: V, b: V) {
    WalkFromTo(adj, p, a, b) && forall q: seq<V> | WalkFromTo(adj, q, a, b) :: |p| <= |q|
  }

  /** Every discovered vertex but the source has a parent one step nearer to the source. */
  ghost predicate ParentsOk<V(!new)>(adj: map<V, seq<V>>, source: V, order: seq<V>, parents: map<V, V>) {
    && parents.Keys == Elements(order) - {source}
    && (forall x | x in parents :: parents[x] in order && Edge(adj, parents[x], x))
    && (forall x | x in parents :: Nearer(adj, source, parents[x], x))
  }

  ghost predicate Nearer<V(!new)>(adj: map<V, seq<V>>, source: V, p: V, x: V) {
    forall n: nat | x in Ball(adj, source, n) :: n > 0 && p in Ball(adj, source, n - 1)
  }

  lemma NewIsNearer<V(!new)>(adj: map<V, seq<V>>, source: V, order: seq<V>, h: nat, d: nat, k: nat, x: V)
    requires h < k <= |order| && Elements(order[..k]) == Ball(adj, source, d) && x !in order
    ensures Nearer(adj, source, order[h], x)
  {
    assert order[..k][h] == order[h];
    assert x !in order[..k];
    forall n: nat | x in Ball(adj, source, n) ensures n > 0 && order[h] in Ball(adj, source, n - 1) {
      if n <= d {
        BallMonotone(adj, source, n, d);
      } else {
        BallMonotone(adj, source, d, n - 1);
      }
    }
  }

  /** Discovering `x` from the vertex being expanded records a parent one step nearer. */
  lemma ParentAdded<V(!new)>(adj: map<V, seq<V>>, source: V, seen: seq<V>, parents: map<V, V>, p: V, x: V)
    requires p in seen && Edge(adj, p, x) && x !in seen && source in seen
    requires Nearer(adj, source, p, x)
    requires ParentsOk(adj, source, seen, parents)
    ensures ParentsOk(adj, source, seen + [x], parents[x := p])
  {
    assert Elements(seen + [x]) == Elements(seen) + {x};
  }

  function Reversed<V>(s: seq<V>): seq<V> {
    seq(|s|, i requires 0 <= i < |s| => s[|s| - 1 - i])
  }

  lemma WalkPrepend<V(!new)>(adj: map<V, seq<V>>, path: seq<V>, a: V, b: V, c: V)
    requires WalkFromTo(adj, Reversed(path), a, b) && Edge(adj, c, a)
    ensures WalkFromTo(adj, Reversed(path + [c]), c, b)
  {
    var p, q := Reversed(path), Reversed(path + [c]);
    assert q == [c] + p;
    forall i | 0 <= i < |q| - 1 ensures Edge(adj, q[i], q[i + 1]) {
      if i > 0 {
        assert Edge(adj, p[i - 1], p[i - 1 + 1]);
      }
    }
  }

  /** The least radius that contains `b`. */
  ghost function Distance<V(!new)>(adj: map<V, seq<V>>, a: V, b: V, bound: nat): (n: nat)
    requires b in Ball(adj, a, bound)
    ensures b in Ball(adj, a, n) && forall m: nat | b in Ball(adj, a, m) :: n <= m
  {
    if bound == 0 then 0
    else if b in Ball(adj, a, bound - 1) then Distance(adj, a, b, bound - 1)
    else
      assert forall m: nat | m < bound :: b !in Ball(adj, a, m) by {
        forall m: nat | m < bound ensures b !in Ball(adj, a, m) {
          BallMonotone(adj, a, m, bound - 1);
        }
      }
      bound
  }

  /** A walk no longer than the distance allows is a shortest one. */
  lemma DistanceIsShortest<V(!new)>(adj: map<V, seq<V>>, p: seq<V>, a: V, b: V, n: nat)
    requires WalkFromTo(adj, p, a, b) && |p| <= n + 1
    requires forall m: nat | b in Ball(adj, a, m) :: n <= m
    ensures IsShortest(adj, p, a, b)
  {
    forall q: seq<V> | WalkFromTo(adj, q, a, b) ensures |p| <= |q| {
      WalkInBall(adj, q, a, b);
    }
  }

  // --- Depth first ----------------------------------------------------------------

  /** Pre-order of a depth-first walk that still has `todo` to enter, in order. */
  ghost function Preorder<V(!new)>(adj: map<V, seq<V>>, todo: seq<V>, visited: set<V>): seq<V>
    requires WellFormed(adj) && forall x | x in todo :: x in adj
    decreases adj.Keys - visited, |todo|
  {
    if todo == [] then []
    else if todo[0] in visited then Preorder(adj, todo[1..], visited)
    else
      assert forall x | x in adj[todo[0]] :: Edge(adj, todo[0], x);
      [todo[0]] + Preorder(adj, adj[todo[0]] + todo[1..], visited + {todo[0]})
  }

  lemma {:induction false} PreorderSplit<V(!new)>(adj: map<V, seq<V>>, xs: seq<V>, ys: seq<V>, visited: set<V>)
    requires WellFormed(adj) && (forall x | x in xs :: x in adj) && forall x | x in ys :: x in adj
    ensures var first := Preorder(adj, xs, visited);
      Preorder(adj, xs + ys, visited) == first + Preorder(adj, ys, visited + Elements(first))
    decreases adj.Keys - visited, |xs|
  {
    if xs == [] {
      assert xs + ys == ys;
      assert visited + Elements<V>([]) == visited;
    } else if xs[0] in visited {
      assert (xs + ys)[1..] == xs[1..] + ys;
      PreorderSplit(adj, xs[1..], ys, visited);
    } else {
      var v := xs[0];
      assert forall x | x in adj[v] :: Edge(adj, v, x);
      assert adj[v] + (xs + ys)[1..] == (adj[v] + xs[1..]) + ys;
      PreorderSplit(adj, adj[v] + xs[1..], ys, visited + {v});
      var rest := Preorder(adj, adj[v] + xs[1..], visited + {v});
      assert Preorder(adj, xs, visited) == [v] + rest;
      assert visited + Elements([v] + rest) == visited + {v} + Elements(rest);
    }
  }

  lemma PreorderNone<V(!new)>(adj: map<V, seq<V>>, visited: set<V>)
    requires WellFormed(adj)
    ensures Preorder(adj, [], visited) == []
  {}

  lemma PreorderSkip<V(!new)>(adj: map<V, seq<V>>, v: V, visited: set<V>)
    requires WellFormed(adj) && v in adj && v in visited
    ensures Preorder(adj, [v], visited) == []
  {}

  lemma PreorderNext<V(!new)>(adj: map<V, seq<V>>, ns: seq<V>, i: nat, visited: set<V>)
    requires WellFormed(adj) && i < |ns| && forall x | x in ns :: x in adj
    ensures var sofar := Preorder(adj, ns[..i], visited);
      var next := Preorder(adj, [ns[i]], visited + Elements(sofar));
      && Preorder(adj, ns[..i + 1], visited) == sofar + next
      && Elements(sofar + next) == Elements(sofar) + Elements(next)
  {
    assert ns[..i + 1] == ns[..i] + [ns[i]];
    PreorderSplit(adj, ns[..i], [ns[i]], visited);
  }

  lemma PreorderEnter<V(!new)>(adj: map<V, seq<V>>, v: V, visited: set<V>)
    requires WellFormed(adj) && v in adj && v !in visited
    ensures forall x | x in adj[v] :: x in adj
    ensures var rest := Preorder(adj, adj[v], visited + {v});
      Preorder(adj, [v], visited) == [v] + rest && Elements([v] + rest) == {v} + Elements(rest)
  {
    assert forall x | x in adj[v] :: Edge(adj, v, x);
    assert adj[v] + [v][1..] == adj[v];
  }

  ghost predicate ReachedFromSome<V(!new)>(adj: map<V, seq<V>>, todo: seq<V>, x: V) {
    exists t :: t in todo && Reach(adj, t, x)
  }

  /** A finished walk has entered everything it was given, left nothing half-expanded,
      repeated nothing, and strayed nowhere unreachable. */
  lemma {:induction false} PreorderMeaning<V(!new)>(adj: map<V, seq<V>>, todo: seq<V>, visited: set<V>)
    requires WellFormed(adj) && forall x | x in todo :: x in adj
    ensures var r := Preorder(adj, todo, visited);
      && NoDuplicates(r) && Elements(r) !! visited
      && Elements(todo) <= visited + Elements(r)
      && (forall x, y | x in r && Edge(adj, x, y) :: y in visited + Elements(r))
      && (forall x | x in r :: ReachedFromSome(adj, todo, x))
    decreases adj.Keys - visited, |todo|
  {
    if todo == [] {
    } else if todo[0] in visited {
      PreorderMeaning(adj, todo[1..], visited);
      assert todo == [todo[0]] + todo[1..];
    } else {
      var v := todo[0];
      assert forall x | x in adj[v] :: Edge(adj, v, x);
      var next := adj[v] + todo[1..];
      PreorderMeaning(adj, next, visited + {v});
      var rest := Preorder(adj, next, visited + {v});
      var r := [v] + rest;
      assert todo == [v] + todo[1..];
      assert Elements(r) == {v} + Elements(rest);
      forall x, y | x in r && Edge(adj, x, y) ensures y in visited + Elements(r) {
        if x == v {
          assert y in next;
          assert y in Elements(next);
        }
      }
      forall x | x in r ensures ReachedFromSome(adj, todo, x) {
        ReachedThrough(adj, todo, next, rest, x);
      }
    }
  }

  lemma ReachedThrough<V(!new)>(adj: map<V, seq<V>>, todo: seq<V>, next: seq<V>, rest: seq<V>, x: V)
    requires todo != [] && todo[0] in adj && next == adj[todo[0]] + todo[1..]
    requires x == todo[0] || (x in rest && ReachedFromSome(adj, next, x))
    ensures ReachedFromSome(adj, todo, x)
  {
    ReachRefl(adj, todo[0]);
    if x != todo[0] {
      var t :| t in next && Reach(adj, t, x);
      if t in adj[todo[0]] {
        EdgeReach(adj, todo[0], t);
        ReachTrans(adj, todo[0], t, x);
      } else {
        assert t in todo;
      }
    }
  }

  /** What depth-first search promises of the list it returns. */
  ghost predicate IsDfsOrder<V(!new)>(adj: map<V, seq<V>>, start: V, order: seq<V>) {
    && order != [] && order[0] == start
    && NoDuplicates(order)
    && (forall x :: x in order <==> Reach(adj, start, x))
    && IsDepthFirst(adj, order)
  }

  /** A vertex on the way from the start, and how many of its successors have been entered. */
  datatype Frame = Frame(at: nat, next: nat)

  /** What the frames have yet to enter, the latest first. */
  ghost function Pending<V(!new)>(adj: map<V, seq<V>>, done: seq<V>, frames: seq<Frame>): seq<V>
    requires forall f | f in frames :: InFrame(adj, done, f)
  {
    if frames == [] then []
    else
      assert InFrame(adj, done, frames[0]);
      adj[done[frames[0].at]][frames[0].next..] + Pending(adj, done, frames[1..])
  }

  /** What is done up to now, when the walk stands in these frames. */
  ghost predicate Standing<V(!new)>(adj: map<V, seq<V>>, done: seq<V>, frames: seq<Frame>) {
    && (forall x | x in done :: x in adj)
    && (forall f | f in frames :: InFrame(adj, done, f))
    && (forall m, n | 0 <= m < n < |frames| :: frames[n].at < frames[m].at)
    && (forall i | 0 <= i < |done| :: Exhausted(adj, done, i) || exists m :: 0 <= m < |frames| && frames[m].at == i)
  }

  ghost predicate InFrame<V(!new)>(adj: map<V, seq<V>>, done: seq<V>, f: Frame) {
    && f.at < |done| && done[f.at] in adj && f.next <= |adj[done[f.at]]|
    && forall y | y in adj[done[f.at]][..f.next] :: y in done
  }

  lemma {:induction false} PendingMore<V(!new)>(adj: map<V, seq<V>>, done: seq<V>, v: V, frames: seq<Frame>)
    requires forall f | f in frames :: InFrame(adj, done, f)
    ensures forall f | f in frames :: InFrame(adj, done + [v], f)
    ensures Pending(adj, done + [v], frames) == Pending(adj, done, frames)
  {
    if frames != [] {
      assert InFrame(adj, done, frames[0]) && (done + [v])[frames[0].at] == done[frames[0].at];
      PendingMore(adj, done, v, frames[1..]);
    }
  }

  /** The latest frame is used up. */
  lemma FrameEnds<V(!new)>(adj: map<V, seq<V>>, done: seq<V>, frames: seq<Frame>)
    requires Standing(adj, done, frames) && frames != [] && InFrame(adj, done, frames[0])
    requires frames[0].next == |adj[done[frames[0].at]]|
    ensures Standing(adj, done, frames[1..]) && Pending(adj, done, frames[1..]) == Pending(adj, done, frames)
  {
    var f := frames[0];
    assert f in frames && InFrame(adj, done, f);
    assert adj[done[f.at]][..f.next] == adj[done[f.at]];
    assert Exhausted(adj, done, f.at);
    forall i | 0 <= i < |done| ensures Exhausted(adj, done, i) || exists m :: 0 <= m < |frames[1..]| && frames[1..][m].at == i {
      if !Exhausted(adj, done, i) {
        var m :| 0 <= m < |frames| && frames[m].at == i;
        assert frames[1..][m - 1].at == i;
      }
    }
  }

  /** The latest frame goes on behind its next successor, which is done. */
  lemma FrameSkips<V(!new)>(adj: map<V, seq<V>>, done: seq<V>, frames: seq<Frame>)
    requires Standing(adj, done, frames) && frames != [] && InFrame(adj, done, frames[0])
    requires frames[0].next < |adj[done[frames[0].at]]|
    requires adj[done[frames[0].at]][frames[0].next] in done
    ensures var rest := [frames[0].(next := frames[0].next + 1)] + frames[1..];
      Standing(adj, done, rest) && Pending(adj, done, rest) == Pending(adj, done, frames)[1..]
  {
    var f := frames[0];
    var g := f.(next := f.next + 1);
    var rest := [g] + frames[1..];
    var ns := adj[done[f.at]];
    assert f in frames && InFrame(adj, done, f);
    assert ns[..f.next + 1] == ns[..f.next] + [ns[f.next]];
    assert InFrame(adj, done, g);
    forall i | 0 <= i < |done| ensures Exhausted(adj, done, i) || exists m :: 0 <= m < |rest| && rest[m].at == i {
      if !Exhausted(adj, done, i) {
        var m :| 0 <= m < |frames| && frames[m].at == i;
        assert rest[m].at == i;
      }
    }
    assert rest[1..] == frames[1..];
  }

  /** The walk enters a new vertex: the first new successor of the latest one that has any. */
  lemma FrameEnters<V(!new)>(adj: map<V, seq<V>>, done: seq<V>, frames: seq<Frame>)
    requires Standing(adj, done, frames) && frames != [] && InFrame(adj, done, frames[0])
    requires frames[0].next < |adj[done[frames[0].at]]| && adj[done[frames[0].at]][frames[0].next] !in done
    ensures FromLatest(adj, done, adj[done[frames[0].at]][frames[0].next])
  {
    var f := frames[0];
    assert FirstNewOf(adj, done, f.at, adj[done[f.at]][f.next]);
    hide Exhausted, InFrame;
    assert forall m | 0 <= m < |frames| :: frames[m].at <= f.at;
    assert forall i | f.at < i < |done| :: Exhausted(adj, done, i);
  }

  lemma EntersPending<V(!new)>(adj: map<V, seq<V>>, done: seq<V>, frames: seq<Frame>, v: V, into: seq<Frame>)
    requires frames != [] && v in adj && forall f | f in frames :: InFrame(adj, done, f)
    requires var f := frames[0]; InFrame(adj, done, f) && f.next < |adj[done[f.at]]| && adj[done[f.at]][f.next] == v
    requires into == [Frame(|done|, 0), frames[0].(next := frames[0].next + 1)] + frames[1..]
    requires forall f | f in into :: InFrame(adj, done + [v], f)
    ensures Pending(adj, done + [v], into) == adj[v] + Pending(adj, done, frames)[1..]
  {
    var f := frames[0];
    var ns := adj[done[f.at]];
    var g := f.(next := f.next + 1);
    var more := done + [v];
    var rest := Pending(adj, done, frames[1..]);
    assert more[|done|] == v && more[f.at] == done[f.at] && adj[v][0..] == adj[v];
    assert into[1..] == [g] + frames[1..] && into[1..][1..] == frames[1..];
    assert InFrame(adj, more, into[0]) && InFrame(adj, more, g);
    hide Pending, InFrame;
    PendingFirst(adj, done, frames);
    PendingMore(adj, done, v, frames[1..]);
    PendingFirst(adj, more, into);
    PendingFirst(adj, more, into[1..]);
    assert ns[f.next..] == [v] + ns[f.next + 1..];
    assert Pending(adj, more, into[1..]) == ns[f.next + 1..] + rest;
  }

  lemma PendingFirst<V(!new)>(adj: map<V, seq<V>>, done: seq<V>, frames: seq<Frame>)
    requires frames != [] && forall f | f in frames :: InFrame(adj, done, f)
    ensures InFrame(adj, done, frames[0]) && forall f | f in frames[1..] :: InFrame(adj, done, f)
    ensures Pending(adj, done, frames) == adj[done[frames[0].at]][frames[0].next..] + Pending(adj, done, frames[1..])
  {
    assert forall f | f in frames[1..] :: f in frames;
  }

  lemma EntersStanding<V(!new)>(adj: map<V, seq<V>>, done: seq<V>, frames: seq<Frame>, v: V, into: seq<Frame>)
    requires Standing(adj, done, frames) && frames != [] && InFrame(adj, done, frames[0]) && v in adj
    requires var f := frames[0]; f.next < |adj[done[f.at]]| && adj[done[f.at]][f.next] == v
    requires into == [Frame(|done|, 0), frames[0].(next := frames[0].next + 1)] + frames[1..]
    ensures Standing(adj, done + [v], into)
  {
    var more := done + [v];
    var f := frames[0];
    var ns := adj[done[f.at]];
    assert f in frames && InFrame(adj, done, f);
    assert ns[..f.next + 1] == ns[..f.next] + [v];
    forall x | x in into ensures InFrame(adj, more, x) {
      assert x == into[0] || x == into[1] || (x in frames && InFrame(adj, done, x));
    }
    forall m, n | 0 <= m < n < |into| ensures into[n].at < into[m].at {
      assert into[n] == if n == 1 then f.(next := f.next + 1) else frames[n - 1];
      assert m > 1 ==> into[m] == frames[m - 1];
      assert frames[n - 1] in frames && InFrame(adj, done, frames[n - 1]);
    }
    forall i | 0 <= i < |more| ensures Exhausted(adj, more, i) || exists m :: 0 <= m < |into| && into[m].at == i {
      if i < |done| && !Exhausted(adj, more, i) {
        assert more[i] == done[i] && !Exhausted(adj, done, i);
        var m :| 0 <= m < |frames| && frames[m].at == i;
        assert into[m + 1].at == i;
      } else if i == |done| {
        assert into[0].at == i;
      }
    }
  }

  lemma {:induction false} PreorderFromLatest<V(!new)>(adj: map<V, seq<V>>, done: seq<V>, frames: seq<Frame>, todo: seq<V>)
    requires WellFormed(adj) && Standing(adj, done, frames) && IsDepthFirst(adj, done)
    requires todo == Pending(adj, done, frames) && forall x | x in todo :: x in adj
    ensures IsDepthFirst(adj, done + Preorder(adj, todo, Elements(done)))
    decreases adj.Keys - Elements(done), |todo|, |frames|
  {
    hide IsDepthFirst, FromLatest;
    if frames == [] {
      assert done + [] == done;
    } else {
      var f := frames[0];
      assert f in frames && InFrame(adj, done, f);
      var ns := adj[done[f.at]];
      if f.next == |ns| {
        FrameEnds(adj, done, frames);
        PreorderFromLatest(adj, done, frames[1..], todo);
      } else {
        var v := ns[f.next];
        assert todo == [v] + todo[1..];
        if v in done {
          FrameSkips(adj, done, frames);
          PreorderFromLatest(adj, done, [f.(next := f.next + 1)] + frames[1..], todo[1..]);
        } else {
          var into := [Frame(|done|, 0), f.(next := f.next + 1)] + frames[1..];
          FrameEnters(adj, done, frames);
          EntersStanding(adj, done, frames, v, into);
          EntersPending(adj, done, frames, v, into);
          DepthFirstNext(adj, done, v);
          assert forall x | x in adj[v] :: Edge(adj, v, x);
          assert Elements(done + [v]) == Elements(done) + {v};
          assert v in adj.Keys - Elements(done);
          var next := adj[v] + todo[1..];
          PreorderFromLatest(adj, done + [v], into, next);
          assert done + ([v] + Preorder(adj, next, Elements(done) + {v})) == done + [v] + Preorder(adj, next, Elements(done) + {v});
        }
      }
    }
  }

  lemma DfsIsDepthFirst<V(!new)>(adj: map<V, seq<V>>, start: V)
    requires WellFormed(adj) && start in adj
    ensures IsDepthFirst(adj, Preorder(adj, [start], {}))
  {
    var frames := [Frame(0, 0)];
    assert forall x | x in adj[start] :: Edge(adj, start, x);
    assert frames[0].at == 0 && frames[1..] == [];
    assert adj[start] + [start][1..] == adj[start] == Pending(adj, [start], frames);
    assert Elements([start]) == {} + {start};
    PreorderFromLatest(adj, [start], frames, adj[start]);
  }

  lemma DfsOrderMeaning<V(!new)>(adj: map<V, seq<V>>, start: V)
    requires WellFormed(adj) && start in adj
    ensures IsDfsOrder(adj, start, Preorder(adj, [start], {}))
  {
    var r := Preorder(adj, [start], {});
    DfsIsDepthFirst(adj, start);
    hide IsDepthFirst;
    PreorderMeaning(adj, [start], {});
    assert start in Elements([start]);
    assert Closed(adj, Elements(r));
    forall x ensures x in r <==> Reach(adj, start, x) {
      if Reach(adj, start, x) {
        ReachClosed(adj, Elements(r), start, x);
      }
      if x in r {
        assert ReachedFromSome(adj, [start], x);
      }
    }
  }
}
