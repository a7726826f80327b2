/** What Tarjan's algorithm keeps true of its index numbers, its stack and the
    components it has closed. `gray` are the vertices whose call has not returned. */
module TarjanTheory {
  import opened Digraphs
  import opened Sequences
  import opened Searches

  datatype Progress<V(==)> = Progress(indexOf: map<V, nat>, stack: seq<V>, sccs: seq<seq<V>>)

  function Members<V>(sccs: seq<seq<V>>): set<V> {
    set c, x | c in sccs && x in c :: x
  }

  ghost predicate IsScc<V(!new)>(adj: map<V, seq<V>>, c: seq<V>) {
    && c != [] && NoDuplicates(c)
    && forall x, y | x in c :: y in c <==> Reach(adj, x, y) && Reach(adj, y, x)
  }

  ghost predicate Disjoint<V(!new)>(sccs: seq<seq<V>>) {
    forall i, j | 0 <= i < j < |sccs| :: Elements(sccs[i]) !! Elements(sccs[j])
  }

  /** No component leads to one that was closed after it: reverse topological order. */
  ghost predicate SinksFirst<V(!new)>(adj: map<V, seq<V>>, sccs: seq<seq<V>>) {
    forall i, j, x, y | 0 <= i < j < |sccs| && x in sccs[i] && y in sccs[j] :: !Reach(adj, x, y)
  }

  /** Everything on the stack, and everything gray, is numbered. */
  ghost predicate Known<V(!new)>(gray: set<V>, p: Progress<V>) {
    && gray <= Elements(p.stack)
    && (forall x | x in p.stack :: x in p.indexOf)
    && (forall x | x in gray :: x in p.indexOf)
  }

  ghost predicate Shape<V(!new)>(adj: map<V, seq<V>>, p: Progress<V>, counter: nat)
    requires forall x | x in p.stack :: x in p.indexOf
  {
    && NoDuplicates(p.stack)
    && p.indexOf.Keys <= adj.Keys
    && p.indexOf.Keys == Elements(p.stack) + Members(p.sccs)
    && Elements(p.stack) !! Members(p.sccs)
    && (forall i, j | 0 <= i < j < |p.stack| :: p.indexOf[p.stack[i]] < p.indexOf[p.stack[j]])
    && (forall x | x in p.indexOf :: p.indexOf[x] < counter)
  }

  /** Closed components are components, lead nowhere new, not even to one another but backwards,
      and do not overlap. */
  ghost predicate ComponentsOk<V(!new)>(adj: map<V, seq<V>>, sccs: seq<seq<V>>) {
    && Closed(adj, Members(sccs))
    && (forall c | c in sccs :: IsScc(adj, c))
    && Disjoint(sccs)
    && SinksFirst(adj, sccs)
  }

  /** Every vertex whose call has returned has only numbered successors. */
  ghost predicate BlackClosed<V(!new)>(adj: map<V, seq<V>>, gray: set<V>, indexOf: map<V, nat>) {
    forall x, y | x in indexOf && x !in gray && Edge(adj, x, y) :: y in indexOf
  }

  /** A gray vertex reaches everything above it on the stack. */
  ghost predicate GrayReaches<V(!new)>(adj: map<V, seq<V>>, gray: set<V>, p: Progress<V>)
    requires Known(gray, p)
  {
    forall x, y | x in gray && y in p.stack && p.indexOf[x] <= p.indexOf[y] :: Reach(adj, x, y)
  }

  /** `y` is gray, or reaches some gray vertex that is not above it. */
  ghost predicate AnchoredAt<V(!new)>(adj: map<V, seq<V>>, gray: set<V>, indexOf: map<V, nat>, y: V)
    requires y in indexOf && forall x | x in gray :: x in indexOf
  {
    y in gray || exists x :: x in gray && indexOf[x] <= indexOf[y] && Reach(adj, y, x)
  }

  ghost predicate Anchored<V(!new)>(adj: map<V, seq<V>>, gray: set<V>, p: Progress<V>)
    requires Known(gray, p)
  {
    forall y | y in p.stack :: AnchoredAt(adj, gray, p.indexOf, y)
  }

  ghost predicate Inv<V(!new)>(adj: map<V, seq<V>>, gray: set<V>, p: Progress<V>, counter: nat) {
    && Known(gray, p)
    && Shape(adj, p, counter)
    && ComponentsOk(adj, p.sccs)
    && BlackClosed(adj, gray, p.indexOf)
    && GrayReaches(adj, gray, p)
    && Anchored(adj, gray, p)
  }

  lemma AnchorOf<V(!new)>(adj: map<V, seq<V>>, gray: set<V>, indexOf: map<V, nat>, y: V) returns (x: V)
    requires y in indexOf && (forall x | x in gray :: x in indexOf) && AnchoredAt(adj, gray, indexOf, y)
    ensures x in gray && indexOf[x] <= indexOf[y] && Reach(adj, y, x)
  {
    hide Reach;
    if y in gray {
      ReachRefl(adj, y);
      x := y;
    } else {
      x :| x in gray && indexOf[x] <= indexOf[y] && Reach(adj, y, x);
    }
  }

  // --- Entering a vertex ------------------------------------------------------------

  function Enter<V>(p: Progress<V>, v: V, counter: nat): Progress<V> {
    Progress(p.indexOf[v := counter], p.stack + [v], p.sccs)
  }

  lemma EnterKeeps<V(!new)>(adj: map<V, seq<V>>, gray: set<V>, p: Progress<V>, counter: nat, v: V)
    requires Inv(adj, gray, p, counter) && v in adj && v !in p.indexOf
    requires forall x | x in gray :: Reach(adj, x, v)
    ensures Inv(adj, gray + {v}, Enter(p, v, counter), counter + 1)
  {
    EnterGray(adj, gray, p, counter, v);
  }

  lemma EnterGray<V(!new)>(adj: map<V, seq<V>>, gray: set<V>, p: Progress<V>, counter: nat, v: V)
    requires Known(gray, p) && Shape(adj, p, counter) && v !in p.indexOf && GrayReaches(adj, gray, p)
    requires Known(gray + {v}, Enter(p, v, counter))
    requires forall x | x in gray :: Reach(adj, x, v)
    ensures GrayReaches(adj, gray + {v}, Enter(p, v, counter))
  {
    hide Reach;
    ReachRefl(adj, v);
  }

  // --- The low link --------------------------------------------------------------------

  /** `low` is the number of `v`, or of a vertex below it on the stack that it reaches. */
  ghost predicate LowOk<V(!new)>(adj: map<V, seq<V>>, indexOf: map<V, nat>, below: seq<V>, v: V, low: nat)
    requires v in indexOf && forall y | y in below :: y in indexOf
  {
    && low <= indexOf[v]
    && (low < indexOf[v] ==> exists y :: y in below && indexOf[y] == low && Reach(adj, v, y))
  }

  /** No edge from `xs` enters the stack below lower than the low link says. */
  ghost predicate NoLowerEdge<V(!new)>(adj: map<V, seq<V>>, indexOf: map<V, nat>, below: seq<V>, xs: seq<V>, low: nat)
    requires forall y | y in below :: y in indexOf
  {
    forall a, b | a in xs && b in below && Edge(adj, a, b) :: low <= indexOf[b]
  }

  /** The stack has `v` right above `below`, and `seg` above `v`. */
  ghost predicate Split<V(!new)>(gray: set<V>, p: Progress<V>, below: seq<V>, v: V, seg: seq<V>) {
    p.stack == below + [v] + seg && gray <= Elements(below)
  }

  lemma BelowIsLower<V(!new)>(adj: map<V, seq<V>>, gray: set<V>, p: Progress<V>, counter: nat,
                              below: seq<V>, v: V, seg: seq<V>)
    requires Known(gray + {v}, p) && Shape(adj, p, counter) && Split(gray, p, below, v, seg)
    ensures forall b | b in below :: b in p.indexOf && p.indexOf[b] < p.indexOf[v]
    ensures forall a | a in [v] + seg :: a in p.indexOf && p.indexOf[v] <= p.indexOf[a]
    ensures Elements(below) !! Elements([v] + seg)
    ensures NoDuplicates(below) && NoDuplicates([v] + seg)
  {
    var t := [v] + seg;
    assert p.stack == below + t;
    assert p.stack[|below|] == v;
    forall b | b in below ensures p.indexOf[b] < p.indexOf[v] {
      var i :| 0 <= i < |below| && below[i] == b;
      assert p.stack[i] == b;
    }
    forall a | a in t ensures p.indexOf[v] <= p.indexOf[a] {
      var i :| 0 <= i < |t| && t[i] == a;
      assert p.stack[|below| + i] == a;
    }
    forall i, j | 0 <= i < j < |t| ensures t[i] != t[j] {
      assert p.stack[|below| + i] != p.stack[|below| + j];
    }
    forall i, j | 0 <= i < j < |below| ensures below[i] != below[j] {
      assert p.stack[i] != p.stack[j];
    }
  }

  // --- Leaving a vertex that is not a root --------------------------------------------

  lemma LeaveKeeps<V(!new)>(adj: map<V, seq<V>>, gray: set<V>, p: Progress<V>, counter: nat,
                            below: seq<V>, v: V, seg: seq<V>, low: nat)
    requires Inv(adj, gray + {v}, p, counter) && Split(gray, p, below, v, seg)
    requires v in p.indexOf && (forall y | y in below :: y in p.indexOf)
    requires LowOk(adj, p.indexOf, below, v, low) && low < p.indexOf[v]
    requires forall w | Edge(adj, v, w) :: w in p.indexOf
    ensures Inv(adj, gray, p, counter)
  {
    hide AnchoredAt, Reach, IsScc, Edge, ComponentsOk, Shape;
    LeaveAnchored(adj, gray, p, below, v, low);
  }

  /** What was anchored at `v` is anchored at a vertex below that `v` reaches. */
  lemma LeaveAnchored<V(!new)>(adj: map<V, seq<V>>, gray: set<V>, p: Progress<V>, below: seq<V>, v: V, low: nat)
    requires Known(gray + {v}, p) && Known(gray, p) && Anchored(adj, gray + {v}, p)
    requires forall y | y in below :: y in p.stack
    requires LowOk(adj, p.indexOf, below, v, low) && low < p.indexOf[v]
    ensures Anchored(adj, gray, p)
  {
    hide AnchoredAt, Reach;
    var u :| u in below && p.indexOf[u] == low && Reach(adj, v, u);
    var root := RootBelow(adj, gray, p.indexOf, v, u);
    forall y | y in p.stack ensures AnchoredAt(adj, gray, p.indexOf, y) {
      LeaveAnchoredAt(adj, gray, p.indexOf, v, root, y);
    }
  }

  lemma RootBelow<V(!new)>(adj: map<V, seq<V>>, gray: set<V>, indexOf: map<V, nat>, v: V, u: V) returns (root: V)
    requires v in indexOf && u in indexOf && (forall x | x in gray :: x in indexOf)
    requires indexOf[u] < indexOf[v] && Reach(adj, v, u) && AnchoredAt(adj, gray + {v}, indexOf, u)
    ensures root in gray && indexOf[root] < indexOf[v] && Reach(adj, v, root)
  {
    hide Reach;
    root := AnchorOf(adj, gray + {v}, indexOf, u);
    ReachTrans(adj, v, u, root);
  }

  lemma LeaveAnchoredAt<V(!new)>(adj: map<V, seq<V>>, gray: set<V>, indexOf: map<V, nat>, v: V, root: V, y: V)
    requires v in indexOf && y in indexOf && (forall x | x in gray :: x in indexOf)
    requires root in gray && indexOf[root] < indexOf[v] && Reach(adj, v, root)
    requires AnchoredAt(adj, gray + {v}, indexOf, y)
    ensures AnchoredAt(adj, gray, indexOf, y)
  {
    hide Reach;
    var x := AnchorOf(adj, gray + {v}, indexOf, y);
    if x == v {
      ReachTrans(adj, y, v, root);
    }
  }

  // --- Popping a component --------------------------------------------------------------

  function Pop<V>(p: Progress<V>, below: seq<V>, comp: seq<V>): Progress<V> {
    Progress(p.indexOf, below, p.sccs + [comp])
  }

  /** Nothing leads from the part of the stack above `below` back into `below`. */
  lemma SegmentClosed<V(!new)>(adj: map<V, seq<V>>, gray: set<V>, p: Progress<V>, counter: nat,
                               below: seq<V>, v: V, seg: seq<V>)
    requires Inv(adj, gray + {v}, p, counter) && Split(gray, p, below, v, seg)
    requires forall w | Edge(adj, v, w) :: w in p.indexOf
    requires v in p.indexOf && forall y | y in below :: y in p.indexOf
    requires NoLowerEdge(adj, p.indexOf, below, [v] + seg, p.indexOf[v])
    ensures Closed(adj, Elements([v] + seg) + Members(p.sccs))
  {
    hide Edge, Reach, IsScc, GrayReaches, Anchored;
    BelowIsLower(adj, gray, p, counter, below, v, seg);
    forall a, b | a in Elements([v] + seg) + Members(p.sccs) && Edge(adj, a, b)
      ensures b in Elements([v] + seg) + Members(p.sccs)
    {
      if a in [v] + seg {
        assert a !in Elements(below);
        assert b in p.indexOf;
        assert b !in below;
      }
    }
  }

  lemma SegmentReachesBack<V(!new)>(adj: map<V, seq<V>>, gray: set<V>, p: Progress<V>, counter: nat,
                                    below: seq<V>, v: V, seg: seq<V>, x: V)
    requires Inv(adj, gray + {v}, p, counter) && Split(gray, p, below, v, seg)
    requires Closed(adj, Elements([v] + seg) + Members(p.sccs)) && x in [v] + seg
    ensures Reach(adj, v, x) && Reach(adj, x, v)
  {
    hide Reach, Edge, Closed, ComponentsOk, BlackClosed, NoDuplicates, AnchoredAt;
    BelowIsLower(adj, gray, p, counter, below, v, seg);
    assert x in Elements(p.stack) && p.indexOf[v] <= p.indexOf[x];
    assert AnchoredAt(adj, gray + {v}, p.indexOf, x);
    var root := AnchorOf(adj, gray + {v}, p.indexOf, x);
    ReachClosed(adj, Elements([v] + seg) + Members(p.sccs), x, root);
  }

  /** The vertices from `v` up are one component when nothing below `v` can be entered. */
  lemma SegmentIsScc<V(!new)>(adj: map<V, seq<V>>, gray: set<V>, p: Progress<V>, counter: nat,
                              below: seq<V>, v: V, seg: seq<V>, comp: seq<V>)
    requires Inv(adj, gray + {v}, p, counter) && Split(gray, p, below, v, seg)
    requires Closed(adj, Elements([v] + seg) + Members(p.sccs))
    requires Elements(comp) == Elements([v] + seg) && NoDuplicates(comp)
    ensures IsScc(adj, comp)
  {
    hide Reach, Edge, Closed, Inv;
    assert v in Elements([v] + seg);
    forall x | x in comp ensures Reach(adj, v, x) && Reach(adj, x, v) {
      assert x in Elements([v] + seg);
      SegmentReachesBack(adj, gray, p, counter, below, v, seg, x);
    }
    forall x, y | x in comp ensures y in comp <==> Reach(adj, x, y) && Reach(adj, y, x) {
      if y in comp {
        ReachTrans(adj, x, v, y);
        ReachTrans(adj, y, v, x);
      } else if Reach(adj, x, y) && Reach(adj, y, x) {
        assert x in Elements([v] + seg);
        ReachClosed(adj, Elements([v] + seg) + Members(p.sccs), x, y);
        DoneStays(adj, gray + {v}, p, counter, y, x);
        OffStack(adj, gray, p, counter, below, v, seg, x);
      }
    }
  }

  lemma DoneStays<V(!new)>(adj: map<V, seq<V>>, gray: set<V>, p: Progress<V>, counter: nat, y: V, x: V)
    requires Inv(adj, gray, p, counter) && y in Members(p.sccs) && Reach(adj, y, x)
    ensures x in Members(p.sccs)
  {
    ReachClosed(adj, Members(p.sccs), y, x);
  }

  lemma OffStack<V(!new)>(adj: map<V, seq<V>>, gray: set<V>, p: Progress<V>, counter: nat,
                          below: seq<V>, v: V, seg: seq<V>, x: V)
    requires Inv(adj, gray + {v}, p, counter) && Split(gray, p, below, v, seg) && x in [v] + seg
    ensures x !in Members(p.sccs)
  {
  }

  lemma MembersAppend<V>(sccs: seq<seq<V>>, comp: seq<V>)
    ensures Members(sccs + [comp]) == Members(sccs) + Elements(comp)
  {
    assert forall c :: c in sccs + [comp] <==> c in sccs || c == comp;
  }

  lemma PopKeeps<V(!new)>(adj: map<V, seq<V>>, gray: set<V>, p: Progress<V>, counter: nat,
                          below: seq<V>, v: V, seg: seq<V>, comp: seq<V>)
    requires Inv(adj, gray + {v}, p, counter) && Split(gray, p, below, v, seg)
    requires v in p.indexOf && forall y | y in below :: y in p.indexOf
    requires forall w | Edge(adj, v, w) :: w in p.indexOf
    requires NoLowerEdge(adj, p.indexOf, below, [v] + seg, p.indexOf[v])
    requires Elements(comp) == Elements([v] + seg) && NoDuplicates(comp)
    ensures Inv(adj, gray, Pop(p, below, comp), counter)
  {
    hide AnchoredAt, Reach, Edge, IsScc, Shape, GrayReaches, Anchored, ComponentsOk, Known, NoDuplicates;
    SegmentClosed(adj, gray, p, counter, below, v, seg);
    SegmentIsScc(adj, gray, p, counter, below, v, seg, comp);
    PopShape(adj, gray, p, counter, below, v, seg, comp);
    PopGray(adj, gray, p, counter, below, v, seg, comp);
    PopComponents(adj, p, comp);
  }

  lemma PopShape<V(!new)>(adj: map<V, seq<V>>, gray: set<V>, p: Progress<V>, counter: nat,
                          below: seq<V>, v: V, seg: seq<V>, comp: seq<V>)
    requires Known(gray + {v}, p) && Shape(adj, p, counter) && Split(gray, p, below, v, seg)
    requires Elements(comp) == Elements([v] + seg)
    ensures Known(gray, Pop(p, below, comp))
    ensures Shape(adj, Pop(p, below, comp), counter)
    ensures Elements(comp) !! Members(p.sccs)
  {
    MembersAppend(p.sccs, comp);
    BelowIsLower(adj, gray, p, counter, below, v, seg);
    forall i, j | 0 <= i < j < |below| ensures p.indexOf[below[i]] < p.indexOf[below[j]] {
      assert p.stack[i] == below[i] && p.stack[j] == below[j];
    }
  }

  lemma PopComponents<V(!new)>(adj: map<V, seq<V>>, p: Progress<V>, comp: seq<V>)
    requires ComponentsOk(adj, p.sccs) && IsScc(adj, comp) && Elements(comp) !! Members(p.sccs)
    requires Closed(adj, Elements(comp) + Members(p.sccs))
    ensures ComponentsOk(adj, p.sccs + [comp])
  {
    hide IsScc, Edge;
    MembersAppend(p.sccs, comp);
    var q := p.sccs + [comp];
    forall i, j | 0 <= i < j < |q| ensures Elements(q[i]) !! Elements(q[j]) {
      assert q[i] == p.sccs[i] && p.sccs[i] in p.sccs;
      assert Elements(p.sccs[i]) <= Members(p.sccs);
    }
    assert Elements(comp) + Members(p.sccs) == Members(q);
    LastIsNotReached(adj, p.sccs, comp);
  }

  lemma LastIsNotReached<V(!new)>(adj: map<V, seq<V>>, sccs: seq<seq<V>>, comp: seq<V>)
    requires Closed(adj, Members(sccs)) && SinksFirst(adj, sccs) && Elements(comp) !! Members(sccs)
    ensures SinksFirst(adj, sccs + [comp])
  {
    hide Reach, Edge, Closed;
    var q := sccs + [comp];
    forall i, j, x, y | 0 <= i < j < |q| && x in q[i] && y in q[j] ensures !Reach(adj, x, y) {
      if j == |sccs| && Reach(adj, x, y) {
        assert sccs[i] in sccs && y in Elements(comp);
        ReachClosed(adj, Members(sccs), x, y);
      }
    }
  }

  lemma PopGray<V(!new)>(adj: map<V, seq<V>>, gray: set<V>, p: Progress<V>, counter: nat,
                         below: seq<V>, v: V, seg: seq<V>, comp: seq<V>)
    requires Inv(adj, gray + {v}, p, counter) && Split(gray, p, below, v, seg)
    requires Known(gray, Pop(p, below, comp))
    ensures GrayReaches(adj, gray, Pop(p, below, comp)) && Anchored(adj, gray, Pop(p, below, comp))
  {
    hide Reach, ComponentsOk, BlackClosed, AnchoredAt;
    BelowIsLower(adj, gray, p, counter, below, v, seg);
    forall y | y in below ensures y in p.stack && AnchoredAt(adj, gray, p.indexOf, y) {
      assert y in Elements(p.stack);
      PopAnchoredAt(adj, gray, p.indexOf, v, y);
    }
  }

  lemma PopAnchoredAt<V(!new)>(adj: map<V, seq<V>>, gray: set<V>, indexOf: map<V, nat>, v: V, y: V)
    requires v in indexOf && y in indexOf && (forall x | x in gray :: x in indexOf) && indexOf[y] < indexOf[v]
    requires AnchoredAt(adj, gray + {v}, indexOf, y)
    ensures AnchoredAt(adj, gray, indexOf, y)
  {
    var x := AnchorOf(adj, gray + {v}, indexOf, y);
    assert x in gray;
  }

  // --- One call -------------------------------------------------------------------------

  ghost predicate Extends<V(!new)>(indexOf: map<V, nat>, later: map<V, nat>) {
    forall x | x in indexOf :: x in later && later[x] == indexOf[x]
  }

  /** The call for `v`, entered in state `p0`, has looked at the successors `ws`. */
  ghost predicate Running<V(!new)>(adj: map<V, seq<V>>, gray: set<V>, p0: Progress<V>, c0: nat,
                                   p: Progress<V>, counter: nat, v: V, seg: seq<V>, low: nat, ws: seq<V>) {
    && Inv(adj, gray + {v}, p, counter) && Split(gray, p, p0.stack, v, seg)
    && v !in p0.indexOf && Extends(p0.indexOf, p.indexOf)
    && v in p.indexOf && p.indexOf[v] == c0 && c0 < counter
    && (forall y | y in p0.stack :: y in p.indexOf)
    && LowOk(adj, p.indexOf, p0.stack, v, low)
    && NoLowerEdge(adj, p.indexOf, p0.stack, seg, low)
    && forall w | w in ws :: LookedAt(p.indexOf, p0.stack, w, low)
  }

  ghost predicate LookedAt<V(!new)>(indexOf: map<V, nat>, below: seq<V>, w: V, low: nat) {
    w in indexOf && (w in below ==> low <= indexOf[w])
  }

  /** The call for `v`, entered in state `p0`, has returned and left `seg` on the stack. */
  ghost predicate Returned<V(!new)>(adj: map<V, seq<V>>, gray: set<V>, p0: Progress<V>, c0: nat,
                                    p: Progress<V>, counter: nat, v: V, seg: seq<V>, low: nat) {
    && Inv(adj, gray, p, counter) && p.stack == p0.stack + seg
    && v !in p0.indexOf && Extends(p0.indexOf, p.indexOf)
    && v in p.indexOf && p.indexOf[v] == c0 && c0 < counter
    && (forall y | y in p0.stack :: y in p.indexOf)
    && LowOk(adj, p.indexOf, p0.stack, v, low)
    && NoLowerEdge(adj, p.indexOf, p0.stack, seg, low)
  }

  lemma Starts<V(!new)>(adj: map<V, seq<V>>, gray: set<V>, p0: Progress<V>, c0: nat, v: V)
    requires Inv(adj, gray, p0, c0) && v in adj && v !in p0.indexOf
    requires forall x | x in gray :: Reach(adj, x, v)
    ensures Running(adj, gray, p0, c0, Enter(p0, v, c0), c0 + 1, v, [], c0, [])
  {
    hide Reach, AnchoredAt, Shape, ComponentsOk, GrayReaches, Anchored, BlackClosed, Edge;
    EnterKeeps(adj, gray, p0, c0, v);
    assert p0.stack + [v] + [] == p0.stack + [v];
  }

  lemma RunningFacts<V(!new)>(adj: map<V, seq<V>>, gray: set<V>, p0: Progress<V>, c0: nat,
                              p: Progress<V>, counter: nat, v: V, seg: seq<V>, low: nat, ws: seq<V>)
    requires Running(adj, gray, p0, c0, p, counter, v, seg, low, ws)
    ensures v in p.indexOf && p.indexOf[v] == c0 && low <= c0 && v !in p0.indexOf && Extends(p0.indexOf, p.indexOf)
    ensures p.stack == p0.stack + [v] + seg && NoDuplicates(p.stack) && NoDuplicates([v] + seg)
  {
    hide AnchoredAt, Reach, ComponentsOk;
    BelowIsLower(adj, gray, p, counter, p0.stack, v, seg);
  }

  lemma ReturnedFacts<V(!new)>(adj: map<V, seq<V>>, gray: set<V>, p0: Progress<V>, c0: nat,
                               p: Progress<V>, counter: nat, v: V, seg: seq<V>, low: nat)
    requires Returned(adj, gray, p0, c0, p, counter, v, seg, low)
    ensures Inv(adj, gray, p, counter) && Extends(p0.indexOf, p.indexOf) && v in p.indexOf
  {}

  lemma ReversedSame<V(!new)>(s: seq<V>)
    ensures Elements(Reversed(s)) == Elements(s)
    ensures NoDuplicates(s) ==> NoDuplicates(Reversed(s))
  {
    var r := Reversed(s);
    assert forall i | 0 <= i < |s| :: s[i] == r[|s| - 1 - i];
  }

  /** A successor met for the first time may be entered. */
  lemma ChildReady<V(!new)>(adj: map<V, seq<V>>, gray: set<V>, p0: Progress<V>, c0: nat,
                            p: Progress<V>, counter: nat, v: V, seg: seq<V>, low: nat, ws: seq<V>, w: V)
    requires Running(adj, gray, p0, c0, p, counter, v, seg, low, ws) && Edge(adj, v, w)
    requires forall x | x in gray :: Reach(adj, x, v)
    ensures Inv(adj, gray + {v}, p, counter)
    ensures forall x | x in gray + {v} :: Reach(adj, x, w)
  {
    hide Reach, Inv, LowOk, NoLowerEdge;
    EdgeReach(adj, v, w);
    forall x | x in gray ensures Reach(adj, x, w) {
      ReachTrans(adj, x, v, w);
    }
  }

  lemma AfterChild<V(!new)>(adj: map<V, seq<V>>, gray: set<V>, p0: Progress<V>, c0: nat,
                            p: Progress<V>, counter: nat, v: V, seg: seq<V>, low: nat, ws: seq<V>,
                            w: V, q: Progress<V>, counter': nat, seg': seq<V>, low': nat)
    requires Running(adj, gray, p0, c0, p, counter, v, seg, low, ws) && Edge(adj, v, w)
    requires Returned(adj, gray + {v}, p, counter, q, counter', w, seg', low')
    ensures Running(adj, gray, p0, c0, q, counter', v, seg + seg', Min(low, low'), ws + [w])
  {
    hide Reach, Edge, AnchoredAt, IsScc, Shape, ComponentsOk, GrayReaches, Anchored, BlackClosed;
    assert p.stack == p0.stack + ([v] + seg);
    assert p0.stack + [v] + (seg + seg') == (p0.stack + [v] + seg) + seg';
    forall y | y in p0.stack ensures y in p.stack && q.indexOf[y] == p.indexOf[y] {
    }
    BelowIsLower(adj, gray, p, counter, p0.stack, v, seg);
    LowerThroughChild(adj, p, q.indexOf, p0.stack, v, seg, low, w, low');
    forall a, b | a in seg + seg' && b in p0.stack && Edge(adj, a, b) ensures Min(low, low') <= q.indexOf[b] {
      assert b in p.stack;
    }
    assert w !in p0.stack;
  }

  function Min(a: nat, b: nat): nat {
    if b < a then b else a
  }

  lemma LowerThroughChild<V(!new)>(adj: map<V, seq<V>>, p: Progress<V>, later: map<V, nat>,
                                   below: seq<V>, v: V, seg: seq<V>, low: nat, w: V, low': nat)
    requires v in p.indexOf && (forall y | y in p.stack :: y in p.indexOf) && (forall y | y in below :: y in p.stack)
    requires forall b | b in below :: p.indexOf[b] < p.indexOf[v]
    requires forall a | a in p.stack :: a in below || p.indexOf[v] <= p.indexOf[a]
    requires Extends(p.indexOf, later) && w in later && p.indexOf[v] < later[w]
    requires LowOk(adj, p.indexOf, below, v, low) && LowOk(adj, later, p.stack, w, low') && Edge(adj, v, w)
    ensures LowOk(adj, later, below, v, Min(low, low'))
  {
    hide Reach, Edge;
    EdgeReach(adj, v, w);
    if low' < low {
      var y :| y in p.stack && later[y] == low' && Reach(adj, w, y);
      ReachTrans(adj, v, w, y);
      assert y in below;
    } else if low < later[v] {
      var y :| y in below && p.indexOf[y] == low && Reach(adj, v, y);
      assert later[y] == low;
    }
  }

  lemma AfterSeen<V(!new)>(adj: map<V, seq<V>>, gray: set<V>, p0: Progress<V>, c0: nat,
                           p: Progress<V>, counter: nat, v: V, seg: seq<V>, low: nat, ws: seq<V>, w: V)
    requires Running(adj, gray, p0, c0, p, counter, v, seg, low, ws) && Edge(adj, v, w) && w in p.indexOf
    ensures Running(adj, gray, p0, c0, p, counter, v, seg,
                    if w in p.stack then Min(low, p.indexOf[w]) else low, ws + [w])
  {
    hide Reach, Edge, AnchoredAt, IsScc, Shape, ComponentsOk, GrayReaches, Anchored, BlackClosed;
    BelowIsLower(adj, gray, p, counter, p0.stack, v, seg);
    EdgeReach(adj, v, w);
    assert p.stack == p0.stack + ([v] + seg);
    if w in p.stack && p.indexOf[w] < low {
      assert w in p0.stack;
    }
  }

  /** All successors seen and the low link is `v`'s own number: `v` closes a component. */
  lemma Closes<V(!new)>(adj: map<V, seq<V>>, gray: set<V>, p0: Progress<V>, c0: nat,
                        p: Progress<V>, counter: nat, v: V, seg: seq<V>, ws: seq<V>, comp: seq<V>)
    requires Running(adj, gray, p0, c0, p, counter, v, seg, c0, ws)
    requires forall w | Edge(adj, v, w) :: w in ws
    requires Elements(comp) == Elements([v] + seg) && NoDuplicates(comp)
    ensures Returned(adj, gray, p0, c0, Pop(p, p0.stack, comp), counter, v, [], c0)
  {
    hide Reach, Edge, AnchoredAt, IsScc, Shape, ComponentsOk, GrayReaches, Anchored, BlackClosed, NoDuplicates;
    assert NoLowerEdge(adj, p.indexOf, p0.stack, [v] + seg, c0);
    PopKeeps(adj, gray, p, counter, p0.stack, v, seg, comp);
    assert p0.stack + [] == p0.stack;
  }

  /** All successors seen and the low link is lower: `v` stays on the stack. */
  lemma Stays<V(!new)>(adj: map<V, seq<V>>, gray: set<V>, p0: Progress<V>, c0: nat,
                       p: Progress<V>, counter: nat, v: V, seg: seq<V>, low: nat, ws: seq<V>)
    requires Running(adj, gray, p0, c0, p, counter, v, seg, low, ws) && low < c0
    requires forall w | Edge(adj, v, w) :: w in ws
    ensures Returned(adj, gray, p0, c0, p, counter, v, [v] + seg, low)
  {
    hide Reach, Edge, AnchoredAt, IsScc, Shape, ComponentsOk, GrayReaches, Anchored, BlackClosed;
    LeaveKeeps(adj, gray, p, counter, p0.stack, v, seg, low);
    assert p.stack == p0.stack + ([v] + seg);
  }

  lemma NothingYet<V(!new)>(adj: map<V, seq<V>>)
    ensures Inv(adj, {}, Progress(map[], [], []), 0)
  {}

  // --- Which components are cyclic ------------------------------------------------------

  ghost predicate IsCyclic<V(!new)>(adj: map<V, seq<V>>, c: seq<V>) {
    |c| > 1 || (|c| == 1 && Edge(adj, c[0], c[0]))
  }

  /** The cyclic components, in the order they were closed. */
  ghost function CyclicOf<V(!new)>(adj: map<V, seq<V>>, sccs: seq<seq<V>>): seq<seq<V>> {
    if sccs == [] then []
    else
      var last := sccs[|sccs| - 1];
      CyclicOf(adj, sccs[..|sccs| - 1]) + if IsCyclic(adj, last) then [last] else []
  }

  /** A component is cyclic exactly when its vertices lie on cycles. */
  lemma CyclicMeansOnCycle<V(!new)>(adj: map<V, seq<V>>, c: seq<V>, v: V)
    requires IsScc(adj, c) && v in c
    ensures IsCyclic(adj, c) <==> OnCycle(adj, v)
  {
    hide Reach;
    if |c| > 1 {
      var w := if c[0] == v then c[1] else c[0];
      assert w in c;
      ReachSplit(adj, v, w);
      ReachPlusExtend(adj, v, w, v);
    } else {
      assert c == [v];
      ReachRefl(adj, v);
      if d :| Edge(adj, v, d) && Reach(adj, d, v) {
        EdgeReach(adj, v, d);
        assert d in c;
      }
    }
  }

  lemma {:induction false} CyclicOfMeaning<V(!new)>(adj: map<V, seq<V>>, sccs: seq<seq<V>>)
    requires Disjoint(sccs) && forall c | c in sccs :: IsScc(adj, c)
    ensures forall c :: c in CyclicOf(adj, sccs) <==> c in sccs && IsCyclic(adj, c)
    ensures Disjoint(CyclicOf(adj, sccs))
    ensures forall v :: v in Members(CyclicOf(adj, sccs)) <==> v in Members(sccs) && OnCycle(adj, v)
  {
    hide IsScc, IsCyclic, OnCycle;
    if sccs != [] {
      var front, last := sccs[..|sccs| - 1], sccs[|sccs| - 1];
      assert sccs == front + [last];
      CyclicOfMeaning(adj, front);
      MembersAppend(front, last);
      MembersAppend(CyclicOf(adj, front), last);
      forall v | v in last ensures IsCyclic(adj, last) <==> OnCycle(adj, v) {
        CyclicMeansOnCycle(adj, last, v);
      }
      forall i, j | 0 <= i < j < |CyclicOf(adj, sccs)|
        ensures Elements(CyclicOf(adj, sccs)[i]) !! Elements(CyclicOf(adj, sccs)[j])
      {
        assert CyclicOf(adj, front)[i] in CyclicOf(adj, front);
      }
    }
  }

  /** Keeping the cyclic components keeps their order. */
  lemma {:induction false} CyclicSinksFirst<V(!new)>(adj: map<V, seq<V>>, sccs: seq<seq<V>>)
    requires SinksFirst(adj, sccs)
    ensures SinksFirst(adj, CyclicOf(adj, sccs))
    ensures forall c | c in CyclicOf(adj, sccs) :: c in sccs
  {
    hide IsCyclic, Reach;
    if sccs != [] {
      var front, last := sccs[..|sccs| - 1], sccs[|sccs| - 1];
      assert sccs == front + [last];
      assert SinksFirst(adj, front);
      CyclicSinksFirst(adj, front);
      var kept := CyclicOf(adj, sccs);
      forall i, j, x, y | 0 <= i < j < |kept| && x in kept[i] && y in kept[j] ensures !Reach(adj, x, y) {
        assert kept[i] in CyclicOf(adj, front);
        var k :| 0 <= k < |front| && front[k] == kept[i];
        assert sccs[k] == kept[i] && sccs[|front|] == last;
      }
    }
  }

}
