/** Sorting by a key made of strings, as `sorted` does for nodes and edges: strings compare
    by code point, key tuples compare component by component, and the sort is stable. */
module Ordering {
  import opened Sequences

  /** Lexicographic order lifted from an order on elements. */
  predicate LexLess<T(==)>(less: (T, T) -> bool, a: seq<T>, b: seq<T>) {
    if a == [] then b != []
    else if b == [] then false
    else less(a[0], b[0]) || (a[0] == b[0] && LexLess(less, a[1..], b[1..]))
  }

  ghost predicate StrictTotal<T(!new)>(less: (T, T) -> bool) {
    && (forall x :: !less(x, x))
    && (forall x, y, z :: less(x, y) && less(y, z) ==> less(x, z))
    && (forall x, y :: x == y || less(x, y) || less(y, x))
  }

  lemma {:induction false} LexIrreflexive<T(!new)>(less: (T, T) -> bool, a: seq<T>)
    requires StrictTotal(less)
    ensures !LexLess(less, a, a)
  {
    if a != [] {
      LexIrreflexive(less, a[1..]);
    }
  }

  lemma {:induction false} LexTransitive<T(!new)>(less: (T, T) -> bool, a: seq<T>, b: seq<T>, c: seq<T>)
    requires StrictTotal(less) && LexLess(less, a, b) && LexLess(less, b, c)
    ensures LexLess(less, a, c)
  {
    if a != [] && c != [] && a[0] == b[0] && b[0] == c[0] {
      LexTransitive(less, a[1..], b[1..], c[1..]);
    }
  }

  lemma {:induction false} LexTotal<T(!new)>(less: (T, T) -> bool, a: seq<T>, b: seq<T>)
    requires StrictTotal(less)
    ensures a == b || LexLess(less, a, b) || LexLess(less, b, a)
  {
    if a != [] && b != [] && a[0] == b[0] {
      LexTotal(less, a[1..], b[1..]);
      assert a == [a[0]] + a[1..] && b == [b[0]] + b[1..];
    }
  }

  lemma LexIsStrictTotal<T(!new)>(less: (T, T) -> bool)
    requires StrictTotal(less)
    ensures StrictTotal((a: seq<T>, b: seq<T>) => LexLess(less, a, b))
  {
    forall a: seq<T> ensures !LexLess(less, a, a) {
      LexIrreflexive(less, a);
    }
    forall a: seq<T>, b: seq<T>, c: seq<T> | LexLess(less, a, b) && LexLess(less, b, c) ensures LexLess(less, a, c) {
      LexTransitive(less, a, b, c);
    }
    forall a: seq<T>, b: seq<T> ensures a == b || LexLess(less, a, b) || LexLess(less, b, a) {
      LexTotal(less, a, b);
    }
  }

  predicate StringLess(a: string, b: string) {
    LexLess((x: char, y: char) => x < y, a, b)
  }

  /** `a` ends or has the smaller code point where the two texts first differ, at `i`. */
  ghost predicate DiffersAt(a: string, b: string, i: int) {
    0 <= i <= |a| && i < |b| && a[..i] == b[..i] && (i == |a| || a[i] < b[i])
  }

  ghost predicate TextBefore(a: string, b: string) {
    exists i :: DiffersAt(a, b, i)
  }

  /** Strings compare by code point, a prefix before what it starts. */
  lemma {:induction false} StringLessMeaning(a: string, b: string)
    ensures StringLess(a, b) <==> TextBefore(a, b)
  {
    if a == [] || b == [] || a[0] != b[0] {
      assert StringLess(a, b) ==> DiffersAt(a, b, 0);
      if i :| DiffersAt(a, b, i) {
        SameFirst(a, b, i);
      }
    } else {
      StringLessMeaning(a[1..], b[1..]);
      assert StringLess(a, b) <==> StringLess(a[1..], b[1..]);
      if i :| DiffersAt(a[1..], b[1..], i) {
        assert a[..i + 1] == [a[0]] + a[1..][..i] && b[..i + 1] == [b[0]] + b[1..][..i];
        assert DiffersAt(a, b, i + 1);
      }
      if i :| DiffersAt(a, b, i) {
        assert i > 0;
        assert a[1..][..i - 1] == a[..i][1..] && b[1..][..i - 1] == b[..i][1..];
        assert DiffersAt(a[1..], b[1..], i - 1);
      }
    }
  }

  lemma SameFirst(a: string, b: string, i: int)
    requires DiffersAt(a, b, i)
    ensures i > 0 ==> a != [] && b != [] && a[0] == b[0]
  {
    if i > 0 {
      assert a[..i][0] == b[..i][0];
    }
  }

  type Key = seq<string>

  predicate KeyLess(a: Key, b: Key) {
    LexLess(StringLess, a, b)
  }

  lemma KeyLessNext(x: string, s: Key, y: string, t: Key)
    ensures KeyLess([x] + s, [y] + t) <==> StringLess(x, y) || (x == y && KeyLess(s, t))
  {
    assert ([x] + s)[1..] == s && ([y] + t)[1..] == t;
  }

  lemma KeyOrder()
    ensures StrictTotal(KeyLess)
  {
    var charLess := (x: char, y: char) => x < y;
    assert StrictTotal(charLess);
    LexIsStrictTotal(charLess);
    assert StrictTotal(StringLess) by {
      var lex := (a: string, b: string) => LexLess(charLess, a, b);
      assert forall a, b :: StringLess(a, b) == lex(a, b);
    }
    LexIsStrictTotal(StringLess);
    var lex := (a: Key, b: Key) => LexLess(StringLess, a, b);
    assert forall a, b :: KeyLess(a, b) == lex(a, b);
  }

  // --- The sort ---------------------------------------------------------------------

  /** Inserts `x` after everything whose key is not greater. */
  function InsertByKey<T, K>(key: T -> K, less: (K, K) -> bool, x: T, s: seq<T>): seq<T> {
    if s == [] then [x]
    else if less(key(x), key(s[0])) then [x] + s
    else [s[0]] + InsertByKey(key, less, x, s[1..])
  }

  function SortByKey<T, K>(key: T -> K, less: (K, K) -> bool, s: seq<T>): seq<T> {
    if s == [] then [] else InsertByKey(key, less, s[|s| - 1], SortByKey(key, less, s[..|s| - 1]))
  }

  ghost predicate IsSorted<T(!new), K(!new)>(key: T -> K, less: (K, K) -> bool, s: seq<T>) {
    forall i, j | 0 <= i < j < |s| :: !less(key(s[j]), key(s[i]))
  }

  /** The elements with one key, in order: what a stable sort must not rearrange. */
  function WithKey<T, K(==)>(key: T -> K, k: K, s: seq<T>): seq<T> {
    if s == [] then [] else (if key(s[0]) == k then [s[0]] else []) + WithKey(key, k, s[1..])
  }

  lemma {:induction false} InsertPermutes<T(!new), K(!new)>(key: T -> K, less: (K, K) -> bool, x: T, s: seq<T>)
    ensures multiset(InsertByKey(key, less, x, s)) == multiset(s) + multiset{x}
  {
    if s != [] {
      assert s == [s[0]] + s[1..];
      if !less(key(x), key(s[0])) {
        InsertPermutes(key, less, x, s[1..]);
      }
    }
  }

  lemma {:induction false} InsertSorted<T(!new), K(!new)>(key: T -> K, less: (K, K) -> bool, x: T, s: seq<T>)
    requires StrictTotal(less)
    requires IsSorted(key, less, s)
    ensures IsSorted(key, less, InsertByKey(key, less, x, s))
  {
    var r := InsertByKey(key, less, x, s);
    if s != [] {
      if less(key(x), key(s[0])) {
        forall j | 0 <= j < |s| ensures !less(key(s[j]), key(x)) {
          assert j == 0 || !less(key(s[j]), key(s[0]));
        }
        assert forall j | 1 <= j < |r| :: r[j] == s[j - 1];
      } else {
        InsertSorted(key, less, x, s[1..]);
        InsertPermutes(key, less, x, s[1..]);
        var rest := InsertByKey(key, less, x, s[1..]);
        forall j | 0 <= j < |rest| ensures !less(key(rest[j]), key(s[0])) {
          assert rest[j] in multiset(rest);
          assert rest[j] == x || rest[j] in s[1..];
        }
      }
    }
  }

  lemma TailSorted<T(!new), K(!new)>(key: T -> K, less: (K, K) -> bool, s: seq<T>)
    requires s != [] && IsSorted(key, less, s)
    ensures IsSorted(key, less, s[1..])
  {}

  lemma {:induction false} InsertStable<T(!new), K(!new)>(key: T -> K, less: (K, K) -> bool, x: T, s: seq<T>, k: K)
    requires StrictTotal(less)
    requires IsSorted(key, less, s)
    ensures WithKey(key, k, InsertByKey(key, less, x, s)) == WithKey(key, k, s) + if key(x) == k then [x] else []
  {
    hide StrictTotal, IsSorted;
    if s != [] {
      if less(key(x), key(s[0])) {
        assert ([x] + s)[1..] == s;
        if key(x) == k {
          NoneWithSmallerKey(key, less, s, k);
        }
      } else {
        TailSorted(key, less, s);
        InsertStable(key, less, x, s[1..], k);
        WithKeyCons(key, k, s[0], InsertByKey(key, less, x, s[1..]));
      }
    }
  }

  lemma WithKeyCons<T(!new), K(!new)>(key: T -> K, k: K, x: T, s: seq<T>)
    ensures WithKey(key, k, [x] + s) == (if key(x) == k then [x] else []) + WithKey(key, k, s)
  {
    assert ([x] + s)[1..] == s;
  }

  lemma {:induction false} NoneWithSmallerKey<T(!new), K(!new)>(key: T -> K, less: (K, K) -> bool, s: seq<T>, k: K)
    requires StrictTotal(less)
    requires s != [] && IsSorted(key, less, s) && less(k, key(s[0]))
    ensures WithKey(key, k, s) == []
  {
    if |s| > 1 {
      assert !less(key(s[1]), key(s[0]));
      NoneWithSmallerKey(key, less, s[1..], k);
    }
  }

  /** The sort rearranges, orders, and keeps elements with equal keys in place. */
  lemma {:induction false} SortMeaning<T(!new), K(!new)>(key: T -> K, less: (K, K) -> bool, s: seq<T>)
    requires StrictTotal(less)
    ensures multiset(SortByKey(key, less, s)) == multiset(s)
    ensures IsSorted(key, less, SortByKey(key, less, s))
    ensures forall k :: WithKey(key, k, SortByKey(key, less, s)) == WithKey(key, k, s)
  {
    if s != [] {
      var front, last := s[..|s| - 1], s[|s| - 1];
      assert s == front + [last];
      SortMeaning(key, less, front);
      InsertPermutes(key, less, last, SortByKey(key, less, front));
      InsertSorted(key, less, last, SortByKey(key, less, front));
      forall k ensures WithKey(key, k, SortByKey(key, less, s)) == WithKey(key, k, s) {
        InsertStable(key, less, last, SortByKey(key, less, front), k);
        WithKeyAppend(key, k, front, last);
      }
    }
  }

  lemma {:induction false} WithKeyAppend<T(!new), K(!new)>(key: T -> K, k: K, s: seq<T>, x: T)
    ensures WithKey(key, k, s + [x]) == WithKey(key, k, s) + if key(x) == k then [x] else []
  {
    if s != [] {
      assert (s + [x])[1..] == s[1..] + [x];
      WithKeyAppend(key, k, s[1..], x);
    } else {
      assert s + [x] == [x];
    }
  }

  ghost predicate DistinctKeys<T(!new), K(!new)>(key: T -> K, s: seq<T>) {
    forall x, y | x in s && y in s && key(x) == key(y) :: x == y
  }

  /** With distinct keys the sorted list depends only on which elements there are. */
  lemma {:induction false} SortedIsUnique<T(!new), K(!new)>(key: T -> K, less: (K, K) -> bool, a: seq<T>, b: seq<T>)
    requires StrictTotal(less)
    requires IsSorted(key, less, a) && IsSorted(key, less, b) && DistinctKeys(key, a)
    requires NoDuplicates(a) && NoDuplicates(b) && forall x :: x in a <==> x in b
    ensures a == b
  {
    EmptyTogether(a, b);
    if a != [] {
      FirstIsLeast(key, less, a, b);
      assert a == [a[0]] + a[1..] && b == [b[0]] + b[1..];
      forall x ensures x in a[1..] <==> x in b[1..] {
        assert a[0] !in a[1..] && b[0] !in b[1..];
        assert x in a <==> x == a[0] || x in a[1..];
        assert x in b <==> x == b[0] || x in b[1..];
      }
      SortedIsUnique(key, less, a[1..], b[1..]);
    }
  }

  lemma EmptyTogether<T(!new)>(a: seq<T>, b: seq<T>)
    requires forall x :: x in a <==> x in b
    ensures a == [] <==> b == []
  {
    if a != [] {
      assert a[0] in b;
    }
    if b != [] {
      assert b[0] in a;
    }
  }

  lemma FirstIsLeast<T(!new), K(!new)>(key: T -> K, less: (K, K) -> bool, a: seq<T>, b: seq<T>)
    requires StrictTotal(less)
    requires a != [] && b != [] && IsSorted(key, less, a) && IsSorted(key, less, b) && DistinctKeys(key, a)
    requires forall x :: x in a <==> x in b
    ensures a[0] == b[0]
  {
    assert a[0] in b && b[0] in a;
    var i :| 0 <= i < |b| && b[i] == a[0];
    var j :| 0 <= j < |a| && a[j] == b[0];
    assert i == 0 || !less(key(b[i]), key(b[0]));
    assert j == 0 || !less(key(a[j]), key(a[0]));
  }

  lemma SortedSame<T(!new), K(!new)>(key: T -> K, less: (K, K) -> bool, a: seq<T>, b: seq<T>)
    requires StrictTotal(less)
    requires NoDuplicates(a) && NoDuplicates(b) && DistinctKeys(key, a) && forall x :: x in a <==> x in b
    ensures SortByKey(key, less, a) == SortByKey(key, less, b)
  {
    var r, s := SortByKey(key, less, a), SortByKey(key, less, b);
    SortKeepsElements(key, less, a);
    SortKeepsElements(key, less, b);
    SortedIsUnique(key, less, r, s);
  }

  lemma SortKeepsElements<T(!new), K(!new)>(key: T -> K, less: (K, K) -> bool, a: seq<T>)
    requires StrictTotal(less)
    ensures IsSorted(key, less, SortByKey(key, less, a))
    ensures forall x :: x in SortByKey(key, less, a) <==> x in a
    ensures NoDuplicates(a) ==> NoDuplicates(SortByKey(key, less, a))
  {
    var r := SortByKey(key, less, a);
    SortMeaning(key, less, a);
    forall x ensures x in r <==> x in a {
      assert x in multiset(r) <==> x in multiset(a);
    }
    if NoDuplicates(a) {
      NoDuplicatesMultiset(a);
      NoDuplicatesMultiset(r);
    }
  }

  lemma {:induction false} NoDuplicatesMultiset<T(!new)>(s: seq<T>)
    ensures NoDuplicates(s) <==> forall x :: multiset(s)[x] <= 1
  {
    if s != [] {
      assert s == [s[0]] + s[1..];
      NoDuplicatesMultiset(s[1..]);
      if forall x :: multiset(s)[x] <= 1 {
        forall x ensures multiset(s[1..])[x] <= 1 {
          assert multiset(s)[x] <= 1;
        }
        assert multiset(s)[s[0]] <= 1;
        assert s[0] !in multiset(s[1..]);
      }
      if NoDuplicates(s) {
        assert s[0] !in s[1..];
      }
    }
  }
}
