/** Lists without repetition, selections of a list, and the sizes of the sets they hold. */
module Sequences {

  ghost predicate NoDuplicates<V(!new)>(s: seq<V>) {
    forall i, j | 0 <= i < j < |s| :: s[i] != s[j]
  }

  function Elements<V>(s: seq<V>): set<V> {
    set x | x in s
  }

  lemma {:induction false} NoDuplicatesSize<T(!new)>(s: seq<T>)
    requires NoDuplicates(s)
    ensures |Elements(s)| == |s|
  {
    if s != [] {
      var front, last := s[..|s| - 1], s[|s| - 1];
      assert s == front + [last];
      NoDuplicatesSize(front);
      assert Elements(s) == Elements(front) + {last} && last !in front;
    }
  }

  lemma SubsetSize<T>(s: set<T>, t: set<T>)
    requires s <= t
    ensures |s| <= |t|
    ensures s != t ==> |s| < |t|
  {
    assert t == s + (t - s);
  }

  lemma {:induction false} SmallRange(k: set<nat>, low: int, size: nat)
    requires forall x | x in k :: low <= x < low + size
    ensures |k| <= size
  {
    if size == 0 {
      assert k == {};
    } else {
      var top := low + size - 1;
      if top in k {
        SmallRange(k - {top}, low, size - 1);
      } else {
        SmallRange(k, low, size - 1);
      }
    }
  }

  // --- Selections -------------------------------------------------------------------------------

  /** `r` holds the elements of `s` at the positions `at`, which increase. */
  ghost predicate PicksAt<T(!new)>(s: seq<T>, r: seq<T>, at: seq<int>) {
    && |at| == |r|
    && (forall i, j | 0 <= i < j < |at| :: at[i] < at[j])
    && (forall i | 0 <= i < |at| :: 0 <= at[i] < |s| && r[i] == s[at[i]])
  }

  /** The positions are those of the elements to keep. */
  ghost predicate AreKept<T(!new)>(s: seq<T>, keep: T -> bool, at: seq<int>) {
    forall k | 0 <= k < |s| :: keep(s[k]) <==> k in at
  }

  /** `r` is what is kept of `s`: in the order of `s`, and as often as it is there. */
  ghost predicate Selects<T(!new)>(s: seq<T>, keep: T -> bool, r: seq<T>) {
    exists at: seq<int> :: PicksAt(s, r, at) && AreKept(s, keep, at)
  }

  lemma SelectsNothing<T(!new)>(keep: T -> bool)
    ensures Selects([], keep, [])
  {
    assert PicksAt<T>([], [], []) && AreKept([], keep, []);
  }

  lemma SelectsNext<T(!new)>(s: seq<T>, x: T, keep: T -> bool, r: seq<T>)
    requires Selects(s, keep, r)
    ensures Selects(s + [x], keep, r + if keep(x) then [x] else [])
  {
    var at: seq<int> :| PicksAt(s, r, at) && AreKept(s, keep, at);
    if keep(x) {
      PicksNext(s, x, r, at);
      KeptNext(s, x, keep, at);
    } else {
      PicksSame(s, x, r, at);
      assert r + [] == r;
      KeptNext(s, x, keep, at);
    }
  }

  lemma PicksNext<T(!new)>(s: seq<T>, x: T, r: seq<T>, at: seq<int>)
    requires PicksAt(s, r, at)
    ensures PicksAt(s + [x], r + [x], at + [|s|])
  {}

  lemma PicksSame<T(!new)>(s: seq<T>, x: T, r: seq<T>, at: seq<int>)
    requires PicksAt(s, r, at)
    ensures PicksAt(s + [x], r, at)
  {}

  lemma KeptNext<T(!new)>(s: seq<T>, x: T, keep: T -> bool, at: seq<int>)
    requires AreKept(s, keep, at) && forall i | 0 <= i < |at| :: at[i] < |s|
    ensures AreKept(s + [x], keep, if keep(x) then at + [|s|] else at)
  {
    var more := if keep(x) then at + [|s|] else at;
    forall k | 0 <= k < |s| + 1 ensures keep((s + [x])[k]) <==> k in more {
      assert k in more <==> k in at || (keep(x) && k == |s|);
    }
  }

  function BothHold<T>(p: T -> bool, q: T -> bool): T -> bool {
    x => p(x) && q(x)
  }

  /** Selecting from a selection. */
  lemma SelectsTwice<T(!new)>(s: seq<T>, p: T -> bool, r: seq<T>, q: T -> bool, t: seq<T>)
    requires Selects(s, p, r) && Selects(r, q, t)
    ensures Selects(s, BothHold(p, q), t)
  {
    var a: seq<int> :| PicksAt(s, r, a) && AreKept(s, p, a);
    var b: seq<int> :| PicksAt(r, t, b) && AreKept(r, q, b);
    var at := PicksTwice(s, r, t, a, b);
    hide PicksAt;
    assert AreKept(s, BothHold(p, q), at) by {
      forall k | 0 <= k < |s| ensures BothHold(p, q)(s[k]) <==> k in at {
        PickedTwice(s, p, r, q, a, b, at, k);
      }
    }
  }

  lemma PicksTwice<T(!new)>(s: seq<T>, r: seq<T>, t: seq<T>, a: seq<int>, b: seq<int>) returns (at: seq<int>)
    requires PicksAt(s, r, a) && PicksAt(r, t, b)
    ensures PicksAt(s, t, at)
    ensures |at| == |b| && forall i | 0 <= i < |b| :: 0 <= b[i] < |a| && at[i] == a[b[i]]
  {
    at := seq(|b|, i requires 0 <= i < |b| => a[b[i]]);
  }

  lemma PickedTwice<T(!new)>(s: seq<T>, p: T -> bool, r: seq<T>, q: T -> bool, a: seq<int>, b: seq<int>, at: seq<int>, k: int)
    requires PicksAt(s, r, a) && AreKept(s, p, a) && AreKept(r, q, b) && 0 <= k < |s|
    requires |at| == |b| && forall i | 0 <= i < |b| :: 0 <= b[i] < |a| && at[i] == a[b[i]]
    ensures p(s[k]) && q(s[k]) <==> k in at
  {
    if p(s[k]) && q(s[k]) {
      var i :| 0 <= i < |a| && a[i] == k;
      var j :| 0 <= j < |b| && b[j] == i;
      assert at[j] == k;
    }
    if k in at {
      var j :| 0 <= j < |at| && at[j] == k;
      assert b[j] in b && a[b[j]] in a;
    }
  }

  /** Only what is asked of the elements matters. */
  lemma SelectsSame<T(!new)>(s: seq<T>, p: T -> bool, q: T -> bool, r: seq<T>)
    requires Selects(s, p, r) && forall x | x in s :: p(x) == q(x)
    ensures Selects(s, q, r)
  {
    var at: seq<int> :| PicksAt(s, r, at) && AreKept(s, p, at);
    assert AreKept(s, q, at) by {
      hide PicksAt;
    }
  }

  /** A selection has no other elements than the kept ones. */
  lemma SelectsMembers<T(!new)>(s: seq<T>, keep: T -> bool, r: seq<T>)
    requires Selects(s, keep, r)
    ensures forall x :: x in r <==> x in s && keep(x)
  {
    var at: seq<int> :| PicksAt(s, r, at) && AreKept(s, keep, at);
    forall x ensures x in r <==> x in s && keep(x) {
      if x in r {
        var i :| 0 <= i < |r| && r[i] == x;
        assert at[i] in at;
      }
      if x in s && keep(x) {
        var k :| 0 <= k < |s| && s[k] == x;
        var i :| 0 <= i < |at| && at[i] == k;
      }
    }
  }
}
