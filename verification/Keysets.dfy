/** The WHERE clause of keyset pagination, as SQL evaluates it: an OR of ANDs over
    comparisons in three-valued logic. It is meant to select the rows that the ORDER BY puts
    after the boundary, NULLs included, where a NULL sorts after every value when ascending
    and before every value when descending. */
module Keysets {
  import opened Outcomes
  import opened Ordering

  /** A column value; the integers stand for any totally ordered column type. */
  datatype Value = Null | Val(v: int)

  /** The keyset columns of a row, or the boundary a cursor carries. */
  type Row = seq<Value>

  datatype PageError = CursorNeedsKeyset | KeysetIsTheOrdering | EmptyKeyset | InvalidCursor | NullTiebreaker

  // --- SQL conditions -----------------------------------------------------------------

  datatype Truth = True | False | Unknown

  datatype Sql =
    | IsNull(column: nat)
    | IsNotNull(column: nat)
    | Equal(column: nat, value: int)
    | Greater(column: nat, value: int)
    | Less(column: nat, value: int)
    | And(conjuncts: seq<Sql>)
    | Or(disjuncts: seq<Sql>)

  function Decide(b: bool): Truth {
    if b then True else False
  }

  function Cell(row: Row, column: nat): Value {
    if column < |row| then row[column] else Null
  }

  function Eval(e: Sql, row: Row): Truth
    decreases e, 0
  {
    match e
    case IsNull(c) => Decide(Cell(row, c).Null?)
    case IsNotNull(c) => Decide(Cell(row, c).Val?)
    case Equal(c, v) => if Cell(row, c).Null? then Unknown else Decide(Cell(row, c).v == v)
    case Greater(c, v) => if Cell(row, c).Null? then Unknown else Decide(Cell(row, c).v > v)
    case Less(c, v) => if Cell(row, c).Null? then Unknown else Decide(Cell(row, c).v < v)
    case And(es) => EvalAnd(es, row)
    case Or(es) => EvalOr(es, row)
  }

  function EvalAnd(es: seq<Sql>, row: Row): Truth
    decreases es, 1
  {
    if es == [] then True
    else
      var first, rest := Eval(es[0], row), EvalAnd(es[1..], row);
      if first.False? || rest.False? then False
      else if first.Unknown? || rest.Unknown? then Unknown
      else True
  }

  function EvalOr(es: seq<Sql>, row: Row): Truth
    decreases es, 1
  {
    if es == [] then False
    else
      var first, rest := Eval(es[0], row), EvalOr(es[1..], row);
      if first.True? || rest.True? then True
      else if first.Unknown? || rest.Unknown? then Unknown
      else False
  }

  lemma {:induction false} AndIsTrue(es: seq<Sql>, row: Row)
    ensures EvalAnd(es, row).True? <==> forall i | 0 <= i < |es| :: Eval(es[i], row).True?
  {
    if es != [] {
      AndIsTrue(es[1..], row);
      assert forall i | 1 <= i < |es| :: es[i] == es[1..][i - 1];
    }
  }

  lemma {:induction false} OrIsTrue(es: seq<Sql>, row: Row)
    ensures EvalOr(es, row).True? <==> exists i :: 0 <= i < |es| && Eval(es[i], row).True?
  {
    if es != [] {
      OrIsTrue(es[1..], row);
      assert forall i | 1 <= i < |es| :: es[i] == es[1..][i - 1];
    }
  }

  // --- The predicate --------------------------------------------------------------------

  function EqualTo(column: nat, value: Value): Sql {
    match value
    case Null => IsNull(column)
    case Val(v) => Equal(column, v)
  }

  /** `_sorts_after`: a comparison, or nothing when no value can sort later. */
  function SortsAfter(column: nat, value: Value, ascending: bool, isTiebreaker: bool): Option<Sql> {
    match value
    case Null => if ascending then None else Some(IsNotNull(column))
    case Val(v) =>
      if !ascending then Some(Less(column, v))
      else if isTiebreaker then Some(Greater(column, v))
      else Some(Or([Greater(column, v), IsNull(column)]))
  }

  function EqualPrefix(boundary: Row, n: nat): seq<Sql>
    requires n <= |boundary|
  {
    seq(n, i requires 0 <= i < n => EqualTo(i, boundary[i]))
  }

  /** The disjuncts of the first `n` levels. */
  function Disjuncts(boundary: Row, ascending: bool, n: nat): seq<Sql>
    requires n <= |boundary|
  {
    if n == 0 then []
    else
      var after := SortsAfter(n - 1, boundary[n - 1], ascending, n == |boundary|);
      Disjuncts(boundary, ascending, n - 1) +
      if after.Some? then [And(EqualPrefix(boundary, n - 1) + [after.value])] else []
  }

  method KeysetPredicate(boundary: Row, ascending: bool) returns (r: Result<Sql, PageError>)
    ensures r == if boundary == [] then Err(EmptyKeyset)
                 else if Disjuncts(boundary, ascending, |boundary|) == [] then Err(InvalidCursor)
                 else Ok(Or(Disjuncts(boundary, ascending, |boundary|)))
  {
    if boundary == [] {
      return Err(EmptyKeyset);
    }
    var disjuncts: seq<Sql> := [];
    for i := 0 to |boundary|
      invariant disjuncts == Disjuncts(boundary, ascending, i)
    {
      var after := SortsAfter(i, boundary[i], ascending, i == |boundary| - 1);
      if after.Some? {
        disjuncts := disjuncts + [And(EqualPrefix(boundary, i) + [after.value])];
      }
    }
    if disjuncts == [] {
      return Err(InvalidCursor);
    }
    r := Ok(Or(disjuncts));
  }

  // --- The order it stands for --------------------------------------------------------------

  predicate ValueLess(a: Value, b: Value) {
    a.Val? && (b.Null? || a.v < b.v)
  }

  /** `a` sorts before `b` in the chosen direction. */
  predicate Before(ascending: bool, a: Value, b: Value) {
    if ascending then ValueLess(a, b) else ValueLess(b, a)
  }

  predicate RowBefore(ascending: bool, a: Row, b: Row) {
    LexLess((x, y) => Before(ascending, x, y), a, b)
  }

  lemma BeforeIsOrder(ascending: bool)
    ensures StrictTotal((x, y) => Before(ascending, x, y))
    ensures StrictTotal((a, b) => RowBefore(ascending, a, b))
  {
    var less := (x, y) => Before(ascending, x, y);
    assert StrictTotal(less);
    LexIsStrictTotal(less);
    var lex := (a: Row, b: Row) => LexLess(less, a, b);
    assert forall a, b :: RowBefore(ascending, a, b) == lex(a, b);
  }

  /** Two rows are ordered by the first column in which they differ. */
  ghost predicate DifferFirstAt(ascending: bool, a: Row, b: Row, i: nat) {
    i < |a| && i < |b| && a[..i] == b[..i] && Before(ascending, a[i], b[i])
  }

  lemma {:induction false} RowBeforeAt(ascending: bool, a: Row, b: Row)
    requires |a| == |b|
    ensures RowBefore(ascending, a, b) <==> exists i: nat :: DifferFirstAt(ascending, a, b, i)
  {
    if a != [] {
      RowBeforeAt(ascending, a[1..], b[1..]);
      if Before(ascending, a[0], b[0]) {
        assert DifferFirstAt(ascending, a, b, 0);
      } else {
        if a[0] == b[0] {
          if i: nat :| DifferFirstAt(ascending, a[1..], b[1..], i) {
            assert a[..i + 1] == [a[0]] + a[1..][..i] && b[..i + 1] == [b[0]] + b[1..][..i];
            assert DifferFirstAt(ascending, a, b, i + 1);
          }
        }
        if i: nat :| DifferFirstAt(ascending, a, b, i) {
          assert i > 0 && a[..i][0] == b[..i][0];
          assert a[1..][..i - 1] == a[..i][1..] && b[1..][..i - 1] == b[..i][1..];
          assert DifferFirstAt(ascending, a[1..], b[1..], i - 1);
        }
      }
    }
  }

  // --- What the predicate selects -------------------------------------------------------------

  /** The row whose tiebreaker is NULL and that differs from the boundary in nothing else: the
      one kind of row the ascending predicate leaves out although it sorts later. */
  predicate Dropped(boundary: Row, row: Row, ascending: bool)
    requires |boundary| == |row| > 0
  {
    var n := |row| - 1;
    ascending && row[n].Null? && boundary[n].Val? && row[..n] == boundary[..n]
  }

  lemma LevelSelects(boundary: Row, row: Row, ascending: bool, i: nat)
    requires |boundary| == |row| && i < |row|
    ensures match SortsAfter(i, boundary[i], ascending, i == |row| - 1)
            case None => !Before(ascending, boundary[i], row[i])
            case Some(e) => Eval(e, row).True? <==>
              Before(ascending, boundary[i], row[i]) &&
              !(ascending && i == |row| - 1 && row[i].Null? && boundary[i].Val?)
  {
    if ascending && boundary[i].Val? && i < |row| - 1 {
      var es := [Greater(i, boundary[i].v), IsNull(i)];
      OrIsTrue(es, row);
      assert es[0] == Greater(i, boundary[i].v) && es[1] == IsNull(i);
    }
  }

  lemma PrefixSelects(boundary: Row, row: Row, i: nat)
    requires |boundary| == |row| && i <= |row|
    ensures (forall k | 0 <= k < i :: Eval(EqualPrefix(boundary, i)[k], row).True?) <==> boundary[..i] == row[..i]
  {
    var es := EqualPrefix(boundary, i);
    assert forall k | 0 <= k < i :: Eval(es[k], row).True? <==> boundary[k] == row[k];
    assert forall k | 0 <= k < i :: boundary[..i][k] == boundary[k] && row[..i][k] == row[k];
    if forall k | 0 <= k < i :: Eval(es[k], row).True? {
      assert boundary[..i] == row[..i];
    }
    if boundary[..i] == row[..i] {
      assert forall k | 0 <= k < i :: boundary[..i][k] == row[..i][k];
    }
  }

  ghost predicate SelectedAt(boundary: Row, row: Row, ascending: bool, i: nat)
    requires |boundary| == |row|
  {
    && DifferFirstAt(ascending, boundary, row, i)
    && !(ascending && i == |row| - 1 && row[i].Null? && boundary[i].Val?)
  }

  lemma DisjunctSelects(boundary: Row, row: Row, ascending: bool, i: nat)
    requires |boundary| == |row| && i < |row|
    ensures match SortsAfter(i, boundary[i], ascending, i == |row| - 1)
            case None => !SelectedAt(boundary, row, ascending, i)
            case Some(e) => Eval(And(EqualPrefix(boundary, i) + [e]), row).True? <==> SelectedAt(boundary, row, ascending, i)
  {
    LevelSelects(boundary, row, ascending, i);
    PrefixSelects(boundary, row, i);
    match SortsAfter(i, boundary[i], ascending, i == |row| - 1)
    case None =>
    case Some(e) =>
      var es := EqualPrefix(boundary, i) + [e];
      AndIsTrue(es, row);
      assert es[i] == e && forall k | 0 <= k < i :: es[k] == EqualPrefix(boundary, i)[k];
  }

  /** Some disjunct of the first `n` levels is true of the row. */
  ghost predicate SomeDisjunctHolds(boundary: Row, row: Row, ascending: bool, n: nat)
    requires n <= |boundary|
  {
    exists e :: e in Disjuncts(boundary, ascending, n) && Eval(e, row).True?
  }

  lemma {:induction false} DisjunctsSelect(boundary: Row, row: Row, ascending: bool, n: nat)
    requires |boundary| == |row| && n <= |row|
    ensures SomeDisjunctHolds(boundary, row, ascending, n) <==> exists i: nat :: i < n && SelectedAt(boundary, row, ascending, i)
  {
    hide Eval, SelectedAt, SortsAfter;
    if n > 0 {
      DisjunctsSelect(boundary, row, ascending, n - 1);
      DisjunctSelects(boundary, row, ascending, n - 1);
      var after := SortsAfter(n - 1, boundary[n - 1], ascending, n == |boundary|);
      var front, all := Disjuncts(boundary, ascending, n - 1), Disjuncts(boundary, ascending, n);
      assert after.Some? ==> forall e :: e in all <==> e in front || e == And(EqualPrefix(boundary, n - 1) + [after.value]);
      assert after.None? ==> all == front;
    }
  }

  lemma SelectedIsNotDropped(boundary: Row, row: Row, ascending: bool, i: nat)
    requires |boundary| == |row| > 0 && SelectedAt(boundary, row, ascending, i)
    ensures !Dropped(boundary, row, ascending)
  {
    var n := |row| - 1;
    if i < n {
      assert row[..n][i] == row[i] && boundary[..n][i] == boundary[i] && row[i] != boundary[i];
    }
  }

  /** What the condition keeps, exactly, for any number of levels, any NULLs and either
      direction: the rows sorting after the boundary, save the dropped kind. */
  lemma PredicateSelects(boundary: Row, row: Row, ascending: bool)
    requires |boundary| == |row| > 0
    ensures Eval(Or(Disjuncts(boundary, ascending, |boundary|)), row).True? <==>
      RowBefore(ascending, boundary, row) && !Dropped(boundary, row, ascending)
  {
    var ds := Disjuncts(boundary, ascending, |boundary|);
    OrIsTrue(ds, row);
    DisjunctsSelect(boundary, row, ascending, |row|);
    assert SomeDisjunctHolds(boundary, row, ascending, |row|) <==> exists k :: 0 <= k < |ds| && Eval(ds[k], row).True?;
    RowBeforeAt(ascending, boundary, row);
    if i: nat :| SelectedAt(boundary, row, ascending, i) {
      SelectedIsNotDropped(boundary, row, ascending, i);
    }
    if i: nat :| DifferFirstAt(ascending, boundary, row, i) && !Dropped(boundary, row, ascending) {
      assert SelectedAt(boundary, row, ascending, i);
    }
  }

  /** On rows whose tiebreaker is not NULL the condition is the order; and when no condition
      can be built, no such row sorts after the boundary. */
  lemma PredicateIsOrder(boundary: Row, row: Row, ascending: bool)
    requires |boundary| == |row| > 0 && row[|row| - 1].Val?
    ensures Eval(Or(Disjuncts(boundary, ascending, |boundary|)), row).True? <==> RowBefore(ascending, boundary, row)
    ensures Disjuncts(boundary, ascending, |boundary|) == [] ==> !RowBefore(ascending, boundary, row)
  {
    PredicateSelects(boundary, row, ascending);
    OrIsTrue(Disjuncts(boundary, ascending, |boundary|), row);
  }

  /** A condition cannot be built exactly when the boundary is all NULL and ascending. */
  lemma {:induction false} NoConditionIffAllNull(boundary: Row, ascending: bool, n: nat)
    requires n <= |boundary|
    ensures Disjuncts(boundary, ascending, n) == [] <==> n == 0 || (ascending && forall i | 0 <= i < n :: boundary[i].Null?)
  {
    if n > 0 {
      NoConditionIffAllNull(boundary, ascending, n - 1);
    }
  }

  /** Why the tiebreaker must not be NULL: an ascending scroll loses this row. */
  lemma NullTiebreakerIsLost()
    ensures var boundary, row := [Val(1), Val(7)], [Val(1), Null];
      RowBefore(true, boundary, row) && !Eval(Or(Disjuncts(boundary, true, 2)), row).True?
  {
    var boundary, row := [Val(1), Val(7)], [Val(1), Null];
    PredicateSelects(boundary, row, true);
    assert boundary[..1] == row[..1];
    assert DifferFirstAt(true, boundary, row, 1);
    RowBeforeAt(true, boundary, row);
  }
}
