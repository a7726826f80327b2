/** Directed graphs given by adjacency lists, and the theory of walks that the
    traversal, cycle and dependency modules share.

    A key that is absent from the adjacency map has no successors. */
module Digraphs {

  ghost predicate Edge<V(!new)>(adj: map<V, seq<V>>, a: V, b: V) {
    a in adj && b in adj[a]
  }

  /** A walk is a non-empty list of vertices, each an edge away from the one before. */
  ghost predicate IsWalk<V(!new)>(adj: map<V, seq<V>>, p: seq<V>) {
    p != [] && forall i | 0 <= i < |p| - 1 :: Edge(adj, p[i], p[i + 1])
  }

  ghost predicate WalkFromTo<V(!new)>(adj: map<V, seq<V>>, p: seq<V>, a: V, b: V) {
    IsWalk(adj, p) && p[0] == a && p[|p| - 1] == b
  }

  ghost predicate Reach<V(!new)>(adj: map<V, seq<V>>, a: V, b: V) {
    exists p: seq<V> :: WalkFromTo(adj, p, a, b)
  }

  /** Reached along at least one edge. */
  ghost predicate ReachPlus<V(!new)>(adj: map<V, seq<V>>, a: V, b: V) {
    exists c: V :: Edge(adj, a, c) && Reach(adj, c, b)
  }

  ghost predicate OnCycle<V(!new)>(adj: map<V, seq<V>>, v: V) {
    ReachPlus(adj, v, v)
  }

  ghost predicate Closed<V(!new)>(adj: map<V, seq<V>>, s: set<V>) {
    forall a, b :: a in s && Edge(adj, a, b) ==> b in s
  }

  lemma ReachRefl<V(!new)>(adj: map<V, seq<V>>, a: V)
    ensures Reach(adj, a, a)
  {
    assert WalkFromTo(adj, [a], a, a);
  }

  lemma ReachTrans<V(!new)>(adj: map<V, seq<V>>, a: V, b: V, c: V)
    requires Reach(adj, a, b) && Reach(adj, b, c)
    ensures Reach(adj, a, c)
  {
    var p: seq<V> :| WalkFromTo(adj, p, a, b);
    var q: seq<V> :| WalkFromTo(adj, q, b, c);
    WalkJoin(adj, p, q, a, b, c);
  }

  lemma WalkJoin<V(!new)>(adj: map<V, seq<V>>, p: seq<V>, q: seq<V>, a: V, b: V, c: V)
    requires WalkFromTo(adj, p, a, b) && WalkFromTo(adj, q, b, c)
    ensures WalkFromTo(adj, p + q[1..], a, c)
  {
    var r := p + q[1..];
    forall i | 0 <= i < |r| - 1 ensures Edge(adj, r[i], r[i + 1]) {
      if i >= |p| - 1 {
        assert r[i] == q[i - (|p| - 1)] && r[i + 1] == q[i - (|p| - 1) + 1];
      }
    }
  }

  lemma EdgeReach<V(!new)>(adj: map<V, seq<V>>, a: V, b: V)
    requires Edge(adj, a, b)
    ensures Reach(adj, a, b)
  {
    assert WalkFromTo(adj, [a, b], a, b);
  }

  /** Whatever is reached from a closed set is inside it. */
  lemma ReachClosed<V(!new)>(adj: map<V, seq<V>>, s: set<V>, a: V, b: V)
    requires Closed(adj, s) && a in s && Reach(adj, a, b)
    ensures b in s
  {
    var p: seq<V> :| WalkFromTo(adj, p, a, b);
    WalkClosed(adj, s, p);
  }

  lemma {:induction false} WalkClosed<V(!new)>(adj: map<V, seq<V>>, s: set<V>, p: seq<V>)
    requires Closed(adj, s) && IsWalk(adj, p) && p[0] in s
    ensures p[|p| - 1] in s
    decreases |p|
  {
    if |p| > 1 {
      assert Edge(adj, p[0], p[1]);
      forall i | 0 <= i < |p| - 2 ensures Edge(adj, p[1..][i], p[1..][i + 1]) {
        assert Edge(adj, p[i + 1], p[i + 2]);
      }
      WalkClosed(adj, s, p[1..]);
    }
  }

  /** A walk is trivial or starts with an edge. */
  lemma ReachSplit<V(!new)>(adj: map<V, seq<V>>, a: V, b: V)
    requires Reach(adj, a, b)
    ensures a == b || ReachPlus(adj, a, b)
  {
    var p: seq<V> :| WalkFromTo(adj, p, a, b);
    if |p| > 1 {
      assert Edge(adj, p[0], p[1]);
      forall i | 0 <= i < |p| - 2 ensures Edge(adj, p[1..][i], p[1..][i + 1]) {
        assert Edge(adj, p[i + 1], p[i + 2]);
      }
      assert WalkFromTo(adj, p[1..], p[1], b);
    }
  }

  lemma ReachPlusExtend<V(!new)>(adj: map<V, seq<V>>, a: V, b: V, c: V)
    requires ReachPlus(adj, a, b) && Reach(adj, b, c)
    ensures ReachPlus(adj, a, c)
  {
    var d :| Edge(adj, a, d) && Reach(adj, d, b);
    ReachTrans(adj, d, b, c);
  }

  lemma ReachThenEdge<V(!new)>(adj: map<V, seq<V>>, a: V, b: V, c: V)
    requires Reach(adj, a, b) && Edge(adj, b, c)
    ensures Reach(adj, a, c) && ReachPlus(adj, a, c)
  {
    EdgeReach(adj, b, c);
    ReachTrans(adj, a, b, c);
    ReachRefl(adj, c);
    ReachSplit(adj, a, b);
    if a != b {
      ReachPlusExtend(adj, a, b, c);
    }
  }

  // --- Distance ---------------------------------------------------------------

  /** The vertices at most `n` edges away from `a`. */
  ghost function Ball<V(!new)>(adj: map<V, seq<V>>, a: V, n: nat): set<V> {
    if n == 0 then {a} else Ball(adj, a, n - 1) + Step(adj, Ball(adj, a, n - 1))
  }

  ghost function Step<V(!new)>(adj: map<V, seq<V>>, s: set<V>): set<V> {
    set x, y | x in s && x in adj && y in adj[x] :: y
  }

  lemma BallMonotone<V(!new)>(adj: map<V, seq<V>>, a: V, m: nat, n: nat)
    requires m <= n
    ensures Ball(adj, a, m) <= Ball(adj, a, n)
    decreases n
  {
    if m < n {
      BallMonotone(adj, a, m, n - 1);
    }
  }

  lemma BallHasCentre<V(!new)>(adj: map<V, seq<V>>, a: V, n: nat)
    ensures a in Ball(adj, a, n)
  {
    BallMonotone(adj, a, 0, n);
  }

  /** A ball is exactly what walks of at most `n` edges reach. */
  lemma BallIsWalks<V(!new)>(adj: map<V, seq<V>>, a: V, b: V, n: nat)
    ensures b in Ball(adj, a, n) <==> exists p: seq<V> :: WalkFromTo(adj, p, a, b) && |p| <= n + 1
  {
    if b in Ball(adj, a, n) {
      var p := BallWalk(adj, a, b, n);
    }
    if p: seq<V> :| WalkFromTo(adj, p, a, b) && |p| <= n + 1 {
      WalkInBall(adj, p, a, b);
      BallMonotone(adj, a, |p| - 1, n);
    }
  }

  lemma {:induction false} BallWalk<V(!new)>(adj: map<V, seq<V>>, a: V, b: V, n: nat) returns (p: seq<V>)
    requires b in Ball(adj, a, n)
    ensures WalkFromTo(adj, p, a, b) && |p| <= n + 1
  {
    if n == 0 {
      p := [a];
    } else if b in Ball(adj, a, n - 1) {
      p := BallWalk(adj, a, b, n - 1);
    } else {
      var c :| c in Ball(adj, a, n - 1) && c in adj && b in adj[c];
      var q := BallWalk(adj, a, c, n - 1);
      p := q + [b];
      forall i | 0 <= i < |p| - 1 ensures Edge(adj, p[i], p[i + 1]) {
        if i < |q| - 1 {
          assert Edge(adj, q[i], q[i + 1]);
        }
      }
    }
  }

  lemma {:induction false} WalkInBall<V(!new)>(adj: map<V, seq<V>>, p: seq<V>, a: V, b: V)
    requires WalkFromTo(adj, p, a, b)
    ensures b in Ball(adj, a, |p| - 1)
    decreases |p|
  {
    if |p| > 1 {
      var q := p[..|p| - 1];
      assert forall i | 0 <= i < |q| - 1 :: Edge(adj, q[i], q[i + 1]);
      WalkInBall(adj, q, a, q[|q| - 1]);
      assert Edge(adj, p[|p| - 2], p[|p| - 1]);
    }
  }

  /** A ball that stops growing has everything reachable. */
  lemma BallFixpoint<V(!new)>(adj: map<V, seq<V>>, a: V, n: nat)
    requires Closed(adj, Ball(adj, a, n))
    ensures forall b :: Reach(adj, a, b) <==> b in Ball(adj, a, n)
  {
    BallHasCentre(adj, a, n);
    forall b ensures Reach(adj, a, b) <==> b in Ball(adj, a, n) {
      if Reach(adj, a, b) {
        ReachClosed(adj, Ball(adj, a, n), a, b);
      }
      if b in Ball(adj, a, n) {
        var p := BallWalk(adj, a, b, n);
      }
    }
  }

  // --- Reversal ---------------------------------------------------------------

  ghost predicate Transposed<V(!new)>(adj: map<V, seq<V>>, rev: map<V, seq<V>>) {
    forall a, b :: Edge(adj, a, b) <==> Edge(rev, b, a)
  }

  lemma ReachTransposed<V(!new)>(adj: map<V, seq<V>>, rev: map<V, seq<V>>, a: V, b: V)
    requires Transposed(adj, rev)
    ensures Reach(adj, a, b) <==> Reach(rev, b, a)
  {
    if Reach(adj, a, b) {
      WalkReversed(adj, rev, a, b);
    }
    if Reach(rev, b, a) {
      WalkReversed(rev, adj, b, a);
    }
  }

  lemma WalkReversed<V(!new)>(adj: map<V, seq<V>>, rev: map<V, seq<V>>, a: V, b: V)
    requires Transposed(adj, rev) && Reach(adj, a, b)
    ensures Reach(rev, b, a)
  {
    var p: seq<V> :| WalkFromTo(adj, p, a, b);
    var q := seq(|p|, i requires 0 <= i < |p| => p[|p| - 1 - i]);
    forall i | 0 <= i < |q| - 1 ensures Edge(rev, q[i], q[i + 1]) {
      assert Edge(adj, p[|p| - 2 - i], p[|p| - 2 - i + 1]);
    }
    assert WalkFromTo(rev, q, b, a);
  }
}
