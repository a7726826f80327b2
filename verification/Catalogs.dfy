/** The architecture catalog and its cross-entity check.

    The cycle search of the check keeps no visited set, and its caller reports only a start
    that the search returns itself. It is complete all the same: what a search reports from
    one start comes back when it is used as a start, because a smaller stack raises no new
    alarm on the way. Only the empty id, which the code takes for "no cycle", needs care: a
    cycle is reported exactly when a non-empty id lies on one. */
module Catalogs {
  import opened Outcomes
  import opened Digraphs
  import opened Sequences

  datatype Extra = Extra(
    id: string, level: int, infraRequired: Option<string>,
    dependsOn: seq<string>, lazyImports: seq<string>, optionalForConsumer: seq<string>)

  datatype Level = Level(level: int, name: string, extras: seq<string>)
  datatype Relation = Relation(kind: string, src: string, dst: string)
  datatype Catalog = Catalog(levels: seq<Level>, extras: seq<Extra>, relations: seq<Relation>)

  type Deps = map<string, seq<string>>

  // --- The cycle search -----------------------------------------------------------------

  /** `has_cycle_from`. */
  function HasCycleFrom(deps: Deps, node: string, stack: set<string>): Option<string>
    decreases deps.Keys - stack, 0
  {
    if node in stack then Some(node)
    else if node in deps then FirstCycle(deps, deps[node], stack + {node})
    else None
  }

  /** The loop over the dependencies; an empty id that comes back does not stop it. */
  function FirstCycle(deps: Deps, rest: seq<string>, stack: set<string>): Option<string>
    decreases deps.Keys - stack, 1 + |rest|
  {
    if rest == [] then None
    else
      var cycle := HasCycleFrom(deps, rest[0], stack);
      if cycle.Some? && cycle.value != "" then cycle else FirstCycle(deps, rest[1..], stack)
  }

  // --- The loop over the dependencies ----------------------------------------------------------

  /** The search from `node` reports something its caller takes for a cycle. */
  predicate Alarms(deps: Deps, node: string, stack: set<string>) {
    var r := HasCycleFrom(deps, node, stack); r.Some? && r.value != ""
  }

  lemma {:induction false} NoneAlarms(deps: Deps, rest: seq<string>, stack: set<string>)
    ensures FirstCycle(deps, rest, stack).None? <==> forall w | w in rest :: !Alarms(deps, w, stack)
    ensures FirstCycle(deps, rest, stack) != Some("")
    decreases |rest|
  {
    if rest != [] {
      NoneAlarms(deps, rest[1..], stack);
      assert rest == [rest[0]] + rest[1..];
      assert Alarms(deps, rest[0], stack) ==> FirstCycle(deps, rest, stack).Some?;
    }
  }

  /** The loop returns what its first alarm reports. */
  ghost predicate AlarmsFirst(deps: Deps, rest: seq<string>, stack: set<string>, i: nat) {
    i < |rest| && Alarms(deps, rest[i], stack) && forall j | 0 <= j < i :: !Alarms(deps, rest[j], stack)
  }

  lemma {:induction false} ReportsFirst(deps: Deps, rest: seq<string>, stack: set<string>, i: nat)
    requires AlarmsFirst(deps, rest, stack, i)
    ensures FirstCycle(deps, rest, stack) == HasCycleFrom(deps, rest[i], stack)
    decreases |rest|
  {
    if i > 0 {
      assert !Alarms(deps, rest[0], stack);
      assert forall j | 0 <= j < i - 1 :: rest[1..][j] == rest[j + 1];
      ReportsFirst(deps, rest[1..], stack, i - 1);
    }
  }

  lemma {:induction false} SomeFirst(deps: Deps, rest: seq<string>, stack: set<string>) returns (i: nat)
    requires FirstCycle(deps, rest, stack).Some?
    ensures AlarmsFirst(deps, rest, stack, i)
    ensures FirstCycle(deps, rest, stack) == HasCycleFrom(deps, rest[i], stack)
    decreases |rest|
  {
    if Alarms(deps, rest[0], stack) {
      i := 0;
    } else {
      var k := SomeFirst(deps, rest[1..], stack);
      assert forall j | 0 < j < |rest| :: rest[j] == rest[1..][j - 1];
      i := k + 1;
    }
  }

  // --- What a report and what silence mean --------------------------------------------------------

  /** A report is reached from the start of the search, and is on the stack or on a cycle. */
  lemma {:induction false} ReportIsReached(deps: Deps, node: string, stack: set<string>)
    requires HasCycleFrom(deps, node, stack).Some?
    ensures var r := HasCycleFrom(deps, node, stack).value;
      Reach(deps, node, r) && (r in stack || (r in deps && OnCycle(deps, r)))
    decreases deps.Keys - stack
  {
    hide Reach;
    if node in stack {
      ReachRefl(deps, node);
    } else {
      var i := SomeFirst(deps, deps[node], stack + {node});
      var w, r := deps[node][i], HasCycleFrom(deps, node, stack).value;
      ReportIsReached(deps, w, stack + {node});
      assert Edge(deps, node, w);
      EdgeReach(deps, node, w);
      ReachTrans(deps, node, w, r);
    }
  }

  /** `v` leads to a cycle. */
  ghost predicate Doomed(deps: Deps, v: string) {
    exists c :: Reach(deps, v, c) && OnCycle(deps, c)
  }

  /** What leads to a cycle has a dependency that does. */
  lemma DoomedOnward(deps: Deps, v: string) returns (w: string)
    requires Doomed(deps, v)
    ensures Edge(deps, v, w) && Doomed(deps, w)
  {
    var c :| Reach(deps, v, c) && OnCycle(deps, c);
    ReachSplit(deps, v, c);
    w :| Edge(deps, v, w) && Reach(deps, w, c);
  }

  /** Without an empty id, silence means that neither a cycle nor the stack is in reach. */
  lemma {:induction false} SilentMeansSafe(deps: Deps, node: string, stack: set<string>)
    requires "" !in deps && !Alarms(deps, node, stack)
    ensures !Doomed(deps, node)
    ensures forall s | s in stack && s != "" :: !Reach(deps, node, s)
    decreases deps.Keys - stack
  {
    hide Doomed, Reach;
    if node in deps {
      NoneAlarms(deps, deps[node], stack + {node});
      forall w | w in deps[node] ensures !Doomed(deps, w) && forall s | s in stack && s != "" :: !Reach(deps, w, s) {
        SilentMeansSafe(deps, w, stack + {node});
      }
    }
    if Doomed(deps, node) {
      var w := DoomedOnward(deps, node);
    }
    forall s | s in stack && s != "" ensures !Reach(deps, node, s) {
      if Reach(deps, node, s) {
        ReachSplit(deps, node, s);
      }
    }
  }

  // --- The empty id -----------------------------------------------------------------------------

  /** The dependencies with those of the empty id left out. */
  function Without(deps: Deps): Deps {
    map v | v in deps && v != "" :: deps[v]
  }

  /** Once the empty id is on the stack, the search is the one that ignores it. */
  lemma {:induction false} SameWithout(deps: Deps, node: string, stack: set<string>)
    requires "" in stack
    ensures HasCycleFrom(deps, node, stack) == HasCycleFrom(Without(deps), node, stack)
    decreases deps.Keys - stack, 0
  {
    if node !in stack && node in deps {
      SameAmong(deps, deps[node], stack + {node});
    }
  }

  lemma {:induction false} SameAmong(deps: Deps, rest: seq<string>, stack: set<string>)
    requires "" in stack
    ensures FirstCycle(deps, rest, stack) == FirstCycle(Without(deps), rest, stack)
    decreases deps.Keys - stack, 1 + |rest|
  {
    if rest != [] {
      SameWithout(deps, rest[0], stack);
      SameAmong(deps, rest[1..], stack);
    }
  }

  /** `t` is reached from a dependency of the empty id without coming back to it. */
  ghost predicate ReachedFromEmpty(deps: Deps, t: string) {
    exists w :: Edge(deps, "", w) && Reach(Without(deps), w, t)
  }

  lemma {:induction false} LeavesForGood(deps: Deps, p: seq<string>, t: string)
    requires IsWalk(deps, p) && p[|p| - 1] == t && t != ""
    ensures Reach(Without(deps), p[0], t) || ReachedFromEmpty(deps, t)
    ensures p[0] == "" ==> ReachedFromEmpty(deps, t)
    decreases |p|
  {
    hide Reach;
    if |p| == 1 {
      ReachRefl(Without(deps), t);
    } else {
      forall i | 0 <= i < |p| - 2 ensures Edge(deps, p[1..][i], p[1..][i + 1]) {
        assert Edge(deps, p[i + 1], p[i + 1 + 1]);
      }
      LeavesForGood(deps, p[1..], t);
      assert Edge(deps, p[0], p[0 + 1]);
      if p[0] != "" && Reach(Without(deps), p[1], t) {
        EdgeReach(Without(deps), p[0], p[1]);
        ReachTrans(Without(deps), p[0], p[1], t);
      }
    }
  }

  /** Silence before the empty id was met means that no id on the stack is in reach. */
  lemma {:induction false} SilentMeansNoReturn(deps: Deps, node: string, stack: set<string>, v: string)
    requires "" !in stack && v in stack && !Alarms(deps, node, stack)
    ensures !Reach(deps, node, v)
    decreases deps.Keys - stack
  {
    hide Reach;
    if node in deps {
      NoneAlarms(deps, deps[node], stack + {node});
      if node == "" {
        EmptyMeansNoReturn(deps, stack, v);
      } else {
        forall w | w in deps[node] ensures !Reach(deps, w, v) {
          SilentMeansNoReturn(deps, w, stack + {node}, v);
        }
      }
    }
    if Reach(deps, node, v) {
      ReachSplit(deps, node, v);
    }
  }

  lemma EmptyMeansNoReturn(deps: Deps, stack: set<string>, v: string)
    requires "" !in stack && v in stack && "" in deps
    requires forall w | w in deps[""] :: !Alarms(deps, w, stack + {""})
    ensures !Reach(deps, "", v)
  {
    forall w | w in deps[""] ensures !Reach(Without(deps), w, v) {
      SameWithout(deps, w, stack + {""});
      SilentMeansSafe(Without(deps), w, stack + {""});
    }
    if Reach(deps, "", v) {
      var p: seq<string> :| WalkFromTo(deps, p, "", v);
      LeavesForGood(deps, p, v);
    }
  }

  /** From a non-empty id on a cycle the search does report something. */
  lemma OnCycleAlarms(deps: Deps, v: string)
    requires v != "" && OnCycle(deps, v)
    ensures v in deps && Alarms(deps, v, {})
  {
    hide Reach;
    var w :| Edge(deps, v, w) && Reach(deps, w, v);
    if !Alarms(deps, v, {}) {
      NoneAlarms(deps, deps[v], {} + {v});
      SilentMeansNoReturn(deps, w, {} + {v}, v);
    }
  }

  // --- Searches that differ in their stacks ----------------------------------------------------------

  /** A smaller stack raises no new alarm, unless it lacks the empty id. */
  lemma {:induction false} FewerAlarms(deps: Deps, node: string, small: set<string>, big: set<string>)
    requires small <= big && ("" in big ==> "" in small) && !Alarms(deps, node, big)
    ensures !Alarms(deps, node, small)
    decreases deps.Keys - small
  {
    if node !in big && node in deps {
      NoneAlarms(deps, deps[node], big + {node});
      forall w | w in deps[node] ensures !Alarms(deps, w, small + {node}) {
        FewerAlarms(deps, w, small + {node}, big + {node});
      }
      NoneAlarms(deps, deps[node], small + {node});
    }
  }

  /** A report stays the same on a smaller stack that still holds it. */
  lemma {:induction false} SameReport(deps: Deps, node: string, small: set<string>, big: set<string>, r: string)
    requires small <= big && ("" in big ==> "" in small) && r in small && r != ""
    requires HasCycleFrom(deps, node, big) == Some(r)
    ensures HasCycleFrom(deps, node, small) == Some(r)
    decreases deps.Keys - small
  {
    if node !in big {
      SameReportAmong(deps, node, small, big, r);
    }
  }

  lemma {:induction false} SameReportAmong(deps: Deps, node: string, small: set<string>, big: set<string>, r: string)
    requires small <= big && ("" in big ==> "" in small) && r in small + {node} && r != ""
    requires node !in big && HasCycleFrom(deps, node, big) == Some(r)
    ensures node in deps && HasCycleFrom(deps, node, small) == Some(r)
    decreases deps.Keys - small, 0
  {
    var i := SomeFirst(deps, deps[node], big + {node});
    forall j | 0 <= j < i ensures !Alarms(deps, deps[node][j], small + {node}) {
      FewerAlarms(deps, deps[node][j], small + {node}, big + {node});
    }
    SameReport(deps, deps[node][i], small + {node}, big + {node}, r);
    ReportsFirst(deps, deps[node], small + {node}, i);
  }

  /** Where a report comes from: the search enters the reported id, unless it meets the empty
      id first. */
  lemma {:induction false} Enters(deps: Deps, node: string, stack: set<string>, r: string)
    returns (at: string, before: set<string>)
    requires HasCycleFrom(deps, node, stack) == Some(r) && r !in stack && "" !in stack
    ensures at == r || at == ""
    ensures HasCycleFrom(deps, at, before) == Some(r) && r !in before && "" !in before
    ensures node != at ==> node in before
    ensures stack <= before
    decreases deps.Keys - stack
  {
    at, before := node, stack;
    if node != r && node != "" {
      var i := SomeFirst(deps, deps[node], stack + {node});
      at, before := Enters(deps, deps[node][i], stack + {node}, r);
    }
  }

  /** What a silent dependency reports on another stack it can only report off that stack. */
  lemma OnlyOnStack(deps: Deps, w: string, s: set<string>, t: set<string>, a: set<string>)
    requires "" !in deps && !Alarms(deps, w, s + a) && Alarms(deps, w, t + a)
    ensures HasCycleFrom(deps, w, t + a).value in t
  {
    hide Reach, OnCycle;
    SilentMeansSafe(deps, w, s + a);
    ReportIsReached(deps, w, t + a);
  }

  /** A search that closes a loop of its own on the stack `s`, and whose loop goes through the
      stack `t`, reports something of `t` when it runs on `t`; `a` is on both stacks. */
  lemma {:induction false} Caught(deps: Deps, node: string, s: set<string>, t: set<string>, a: set<string>, r: string)
    requires "" !in deps && HasCycleFrom(deps, node, s + a) == Some(r) && r !in s && r in t && r != ""
    ensures Alarms(deps, node, t + a) && HasCycleFrom(deps, node, t + a).value in t
    decreases deps.Keys - (s + a), 0
  {
    if node !in s + a && node !in t {
      NoneAlarms(deps, deps[node], t + a + {node});
      assert s + (a + {node}) == s + a + {node} && t + (a + {node}) == t + a + {node};
      CaughtAmong(deps, deps[node], s, t, a + {node}, r);
    }
  }

  lemma {:induction false} CaughtAmong(deps: Deps, rest: seq<string>, s: set<string>, t: set<string>, a: set<string>, r: string)
    requires "" !in deps && FirstCycle(deps, rest, s + a) == Some(r) && r !in s && r in t && r != ""
    ensures FirstCycle(deps, rest, t + a).Some? && FirstCycle(deps, rest, t + a).value in t
    decreases deps.Keys - (s + a), 1
  {
    var i := SomeFirst(deps, rest, s + a);
    Caught(deps, rest[i], s, t, a, r);
    NoneAlarms(deps, rest, t + a);
    assert rest[i] in rest;
    var k := SomeFirst(deps, rest, t + a);
    if k < i {
      OnlyOnStack(deps, rest[k], s, t, a);
    }
  }

  // --- Some start returns itself ------------------------------------------------------------------

  /** The search from `id` returns `id`. */
  predicate ReturnsItself(deps: Deps, id: string) {
    id != "" && HasCycleFrom(deps, id, {}) == Some(id)
  }

  ghost predicate NonEmptyOnCycle(deps: Deps) {
    exists v :: v != "" && OnCycle(deps, v)
  }

  /** If the search from `v` reports `r`, then one from `r` returns `r`, or the report was found
      beyond the empty id. */
  lemma ReturnsOrPassesEmpty(deps: Deps, v: string, r: string) returns (before: set<string>)
    requires v != "" && HasCycleFrom(deps, v, {}) == Some(r) && r != ""
    ensures r in deps && OnCycle(deps, r)
    ensures HasCycleFrom(deps, r, {}) == Some(r) ||
            (v in before && r !in before && "" !in before && HasCycleFrom(deps, "", before) == Some(r))
  {
    hide Reach;
    ReportIsReached(deps, v, {});
    var at;
    at, before := Enters(deps, v, {}, r);
    if at == r {
      SameReportAmong(deps, r, {}, before, r);
    }
  }

  /** Two searches that pass the empty id do not report each other's start. */
  lemma NotTwiceBeyondEmpty(deps: Deps, p: set<string>, q: set<string>, r: string, r': string)
    requires "" !in p && "" !in q && r !in p && r in q && r' !in q && r != "" && r' != ""
    requires HasCycleFrom(deps, "", p) == Some(r)
    ensures HasCycleFrom(deps, "", q) != Some(r')
  {
    SameAmong(deps, deps[""], p + {""});
    SameAmong(deps, deps[""], q + {""});
    CaughtAmong(Without(deps), deps[""], p, q, {""}, r);
  }

  /** Some id is returned by the search that starts from it, exactly when a non-empty id lies
      on a cycle. */
  lemma SomeStartReturnsItself(deps: Deps)
    ensures (exists e :: e in deps && ReturnsItself(deps, e)) <==> NonEmptyOnCycle(deps)
  {
    hide OnCycle;
    if e :| e in deps && ReturnsItself(deps, e) {
      ReportIsReached(deps, e, {});
    }
    if v :| v != "" && OnCycle(deps, v) {
      OnCycleAlarms(deps, v);
      var r := HasCycleFrom(deps, v, {}).value;
      var p := ReturnsOrPassesEmpty(deps, v, r);
      OnCycleAlarms(deps, r);
      var r' := HasCycleFrom(deps, r, {}).value;
      if r' != r {
        var q := ReturnsOrPassesEmpty(deps, r, r');
        if HasCycleFrom(deps, r', {}) != Some(r') {
          NotTwiceBeyondEmpty(deps, p, q, r, r');
        }
        assert ReturnsItself(deps, r');
      }
    }
  }

  // --- The whole check --------------------------------------------------------------------------

  datatype Field = DependsOn | LazyImports | OptionalForConsumer

  datatype Issue =
    | UndeclaredInLevel(level: int, name: string, extra: string)
    | WrongLevel(extra: string, declared: int, level: int, name: string)
    | UndeclaredReference(extra: string, field: Field, dep: string)
    | UnknownSource(relation: Relation)
    | UnknownTarget(relation: Relation)
    | DependsOnCycle(extra: string)
    | FlowViolated(extra: string, level: int, dep: string, depLevel: int)

  /** Ids to levels; of two extras with one id the later wins. */
  function LevelOf(extras: seq<Extra>): map<string, int> {
    if extras == [] then map[]
    else LevelOf(extras[..|extras| - 1])[extras[|extras| - 1].id := extras[|extras| - 1].level]
  }

  function DependsOnOf(extras: seq<Extra>): map<string, seq<string>> {
    if extras == [] then map[]
    else DependsOnOf(extras[..|extras| - 1])[extras[|extras| - 1].id := extras[|extras| - 1].dependsOn]
  }

  /** `deps` lists, for every declared id, its dependency set in some order. */
  ghost predicate Enumerates(deps: Deps, extras: seq<Extra>) {
    && deps.Keys == DependsOnOf(extras).Keys
    && forall id | id in deps :: Elements(deps[id]) == Elements(DependsOnOf(extras)[id])
  }

  ghost predicate IsDeclared(extras: seq<Extra>, id: string) {
    exists e :: e in extras && e.id == id
  }

  /** The extra that an id stands for: of two with one id the later. */
  ghost predicate Declares(extras: seq<Extra>, id: string, e: Extra) {
    exists k :: 0 <= k < |extras| && extras[k] == e && e.id == id && forall j | k < j < |extras| :: extras[j].id != id
  }

  ghost predicate HasLevel(extras: seq<Extra>, id: string, level: int) {
    exists e :: Declares(extras, id, e) && e.level == level
  }

  /** The first extra that the search from it returns. */
  ghost predicate FirstSelfReturning(deps: Deps, extras: seq<Extra>, id: string) {
    exists k | 0 <= k < |extras| ::
      && extras[k].id == id && ReturnsItself(deps, id)
      && forall j | 0 <= j < k :: !ReturnsItself(deps, extras[j].id)
  }

  /** Which complaints a catalog deserves. */
  ghost predicate Warranted(c: Catalog, deps: Deps, issue: Issue) {
    match issue
    case UndeclaredInLevel(level, name, x) =>
      (exists l :: l in c.levels && l.level == level && l.name == name && x in l.extras) && !IsDeclared(c.extras, x)
    case WrongLevel(x, declared, level, name) =>
      && (exists l :: l in c.levels && l.level == level && l.name == name && x in l.extras)
      && HasLevel(c.extras, x, declared) && declared != level
    case UndeclaredReference(id, DependsOn, dep) =>
      (exists e :: e in c.extras && e.id == id && dep in e.dependsOn) && !IsDeclared(c.extras, dep)
    case UndeclaredReference(id, LazyImports, dep) =>
      (exists e :: e in c.extras && e.id == id && dep in e.lazyImports) && !IsDeclared(c.extras, dep)
    case UndeclaredReference(id, OptionalForConsumer, dep) =>
      (exists e :: e in c.extras && e.id == id && dep in e.optionalForConsumer) && !IsDeclared(c.extras, dep)
    case UnknownSource(r) => r in c.relations && !IsDeclared(c.extras, r.src)
    case UnknownTarget(r) => r in c.relations && !IsDeclared(c.extras, r.dst)
    case DependsOnCycle(id) => FirstSelfReturning(deps, c.extras, id)
    case FlowViolated(id, level, dep, depLevel) =>
      && (exists e :: e in c.extras && e.id == id && e.level == level && dep in e.dependsOn)
      && HasLevel(c.extras, dep, depLevel) && depLevel > level
  }

  method CheckLevels(c: Catalog, levels: map<string, int>) returns (issues: seq<Issue>)
    requires levels == LevelOf(c.extras)
    ensures forall i :: i in issues <==> exists l :: l in c.levels && LevelIssue(levels, l, l.extras, i)
  {
    issues := [];
    for k := 0 to |c.levels|
      invariant forall i :: i in issues <==> exists l :: l in c.levels[..k] && LevelIssue(levels, l, l.extras, i)
    {
      var l := c.levels[k];
      ghost var before := issues;
      assert c.levels[..k + 1] == c.levels[..k] + [l];
      for n := 0 to |l.extras|
        invariant forall i :: i in issues <==> i in before || LevelIssue(levels, l, l.extras[..n], i)
      {
        var x := l.extras[n];
        assert l.extras[..n + 1] == l.extras[..n] + [x];
        if x !in levels {
          issues := issues + [UndeclaredInLevel(l.level, l.name, x)];
          continue;
        }
        if levels[x] != l.level {
          issues := issues + [WrongLevel(x, levels[x], l.level, l.name)];
        }
      }
      assert l.extras[..|l.extras|] == l.extras;
    }
    assert c.levels[..|c.levels|] == c.levels;
  }

  /** An issue that listing `xs` under level `l` raises. */
  predicate LevelIssue(levels: map<string, int>, l: Level, xs: seq<string>, i: Issue) {
    match i
    case UndeclaredInLevel(level, name, x) => level == l.level && name == l.name && x in xs && x !in levels
    case WrongLevel(x, declared, level, name) =>
      level == l.level && name == l.name && x in xs && x in levels && levels[x] == declared && declared != level
    case _ => false
  }

  method CheckReferences(c: Catalog, levels: map<string, int>) returns (issues: seq<Issue>)
    ensures forall i :: i in issues <==> exists e :: e in c.extras && ReferenceIssue(levels, e, i)
  {
    issues := [];
    for k := 0 to |c.extras|
      invariant forall i :: i in issues <==> exists e :: e in c.extras[..k] && ReferenceIssue(levels, e, i)
    {
      var e := c.extras[k];
      assert c.extras[..k + 1] == c.extras[..k] + [e];
      var a := CheckField(e, DependsOn, e.dependsOn, levels);
      var b := CheckField(e, LazyImports, e.lazyImports, levels);
      var o := CheckField(e, OptionalForConsumer, e.optionalForConsumer, levels);
      forall i ensures i in a + b + o <==> ReferenceIssue(levels, e, i) {
        if i.UndeclaredReference? {
          match i.field case DependsOn => case LazyImports => case OptionalForConsumer =>
        }
      }
      issues := issues + (a + b + o);
    }
    assert c.extras[..|c.extras|] == c.extras;
  }

  /** An issue that what extra `e` refers to raises. */
  ghost predicate ReferenceIssue(levels: map<string, int>, e: Extra, i: Issue) {
    && i.UndeclaredReference? && i.extra == e.id && i.dep !in levels
    && match i.field
       case DependsOn => i.dep in e.dependsOn
       case LazyImports => i.dep in e.lazyImports
       case OptionalForConsumer => i.dep in e.optionalForConsumer
  }

  method CheckField(e: Extra, field: Field, refs: seq<string>, levels: map<string, int>) returns (issues: seq<Issue>)
    ensures forall i :: i in issues <==>
      i.UndeclaredReference? && i.extra == e.id && i.field == field && i.dep in refs && i.dep !in levels
  {
    issues := [];
    for n := 0 to |refs|
      invariant forall i :: i in issues <==>
        i.UndeclaredReference? && i.extra == e.id && i.field == field && i.dep in refs[..n] && i.dep !in levels
    {
      assert refs[..n + 1] == refs[..n] + [refs[n]];
      if refs[n] !in levels {
        issues := issues + [UndeclaredReference(e.id, field, refs[n])];
      }
    }
    assert refs[..|refs|] == refs;
  }

  method CheckRelations(c: Catalog, levels: map<string, int>) returns (issues: seq<Issue>)
    ensures forall i :: i in issues <==>
      || (i.UnknownSource? && i.relation in c.relations && i.relation.src !in levels)
      || (i.UnknownTarget? && i.relation in c.relations && i.relation.dst !in levels)
  {
    issues := [];
    for k := 0 to |c.relations|
      invariant forall i :: i in issues <==>
        || (i.UnknownSource? && i.relation in c.relations[..k] && i.relation.src !in levels)
        || (i.UnknownTarget? && i.relation in c.relations[..k] && i.relation.dst !in levels)
    {
      var r := c.relations[k];
      assert c.relations[..k + 1] == c.relations[..k] + [r];
      if r.src !in levels {
        issues := issues + [UnknownSource(r)];
      }
      if r.dst !in levels {
        issues := issues + [UnknownTarget(r)];
      }
    }
    assert c.relations[..|c.relations|] == c.relations;
  }

  method CheckCycles(c: Catalog, deps: Deps) returns (issues: seq<Issue>)
    ensures |issues| <= 1
    ensures forall i :: i in issues <==> i.DependsOnCycle? && FirstSelfReturning(deps, c.extras, i.extra)
  {
    hide HasCycleFrom;
    issues := [];
    for k := 0 to |c.extras|
      invariant issues == [] && forall j | 0 <= j < k :: !ReturnsItself(deps, c.extras[j].id)
    {
      var id := c.extras[k].id;
      var cycleNode := HasCycleFrom(deps, id, {});
      if cycleNode.Some? && cycleNode.value != "" && cycleNode.value == id {
        issues := [DependsOnCycle(id)];
        break;
      }
    }
  }

  method CheckFlow(c: Catalog, levels: map<string, int>) returns (issues: seq<Issue>)
    ensures forall i :: i in issues <==> exists e :: e in c.extras && FlowIssue(levels, e, e.dependsOn, i)
  {
    issues := [];
    for k := 0 to |c.extras|
      invariant forall i :: i in issues <==> exists e :: e in c.extras[..k] && FlowIssue(levels, e, e.dependsOn, i)
    {
      var e := c.extras[k];
      ghost var before := issues;
      assert c.extras[..k + 1] == c.extras[..k] + [e];
      for n := 0 to |e.dependsOn|
        invariant forall i :: i in issues <==> i in before || FlowIssue(levels, e, e.dependsOn[..n], i)
      {
        var dep := e.dependsOn[n];
        assert e.dependsOn[..n + 1] == e.dependsOn[..n] + [dep];
        if dep !in levels {
          continue;
        }
        if levels[dep] > e.level {
          issues := issues + [FlowViolated(e.id, e.level, dep, levels[dep])];
        }
      }
      assert e.dependsOn[..|e.dependsOn|] == e.dependsOn;
    }
    assert c.extras[..|c.extras|] == c.extras;
  }

  predicate FlowIssue(levels: map<string, int>, e: Extra, dependsOn: seq<string>, i: Issue) {
    i.FlowViolated? && i.extra == e.id && i.level == e.level && i.dep in dependsOn &&
    i.dep in levels && levels[i.dep] == i.depLevel && i.depLevel > i.level
  }

  /** The extra an id stands for gives its level and its dependencies. */
  lemma {:induction false} Declared(extras: seq<Extra>, id: string) returns (e: Extra)
    requires id in LevelOf(extras) || id in DependsOnOf(extras)
    ensures Declares(extras, id, e) && e in extras
    ensures id in LevelOf(extras) && LevelOf(extras)[id] == e.level
    ensures id in DependsOnOf(extras) && DependsOnOf(extras)[id] == e.dependsOn
  {
    var front, last := extras[..|extras| - 1], extras[|extras| - 1];
    assert extras == front + [last];
    if last.id == id {
      e := last;
      assert extras[|front|] == last;
    } else {
      e := Declared(front, id);
      StillDeclares(front, last, id, e);
    }
  }

  lemma StillDeclares(extras: seq<Extra>, x: Extra, id: string, e: Extra)
    requires Declares(extras, id, e) && x.id != id
    ensures Declares(extras + [x], id, e)
  {
    var k :| 0 <= k < |extras| && extras[k] == e && e.id == id && forall j | k < j < |extras| :: extras[j].id != id;
    assert (extras + [x])[k] == e;
  }

  lemma DeclaresOne(extras: seq<Extra>, id: string, d: Extra, e: Extra)
    requires Declares(extras, id, d) && Declares(extras, id, e)
    ensures d == e
  {}

  /** The two maps by id say what is declared, and at which level. */
  lemma LevelOfMeaning(extras: seq<Extra>)
    ensures forall id :: id in LevelOf(extras) <==> IsDeclared(extras, id)
    ensures forall id, level :: HasLevel(extras, id, level) <==> id in LevelOf(extras) && LevelOf(extras)[id] == level
  {
    hide Declares;
    forall id ensures id in LevelOf(extras) <==> IsDeclared(extras, id) {
      if id in LevelOf(extras) {
        var e := Declared(extras, id);
        assert e in extras && e.id == id by {
          DeclaresIt(extras, id, e);
        }
      }
      if e :| e in extras && e.id == id {
        DeclaredIds(extras, e);
      }
    }
    forall id, level ensures HasLevel(extras, id, level) <==> id in LevelOf(extras) && LevelOf(extras)[id] == level {
      if d :| Declares(extras, id, d) && d.level == level {
        DeclaresIt(extras, id, d);
        DeclaredIds(extras, d);
        var e := Declared(extras, id);
        DeclaresOne(extras, id, d, e);
      }
      if id in LevelOf(extras) {
        var e := Declared(extras, id);
      }
    }
  }

  lemma DeclaresIt(extras: seq<Extra>, id: string, e: Extra)
    requires Declares(extras, id, e)
    ensures e in extras && e.id == id
  {}

  lemma {:induction false} DeclaredIds(extras: seq<Extra>, e: Extra)
    requires e in extras
    ensures e.id in LevelOf(extras) && e.id in DependsOnOf(extras)
  {
    var front, last := extras[..|extras| - 1], extras[|extras| - 1];
    assert extras == front + [last];
    if e != last {
      DeclaredIds(front, e);
    }
  }

  /** The order in which a dependency set is listed changes no cycle. */
  lemma SameCycles(deps: Deps, extras: seq<Extra>, v: string)
    requires Enumerates(deps, extras)
    ensures OnCycle(deps, v) <==> OnCycle(DependsOnOf(extras), v)
  {
    var declared := DependsOnOf(extras);
    forall a, b ensures Edge(deps, a, b) <==> Edge(declared, a, b) {
      if a in deps {
        assert b in deps[a] <==> b in Elements(deps[a]);
        assert b in declared[a] <==> b in Elements(declared[a]);
      }
    }
    SameEdgesSameCycles(deps, declared, v);
    SameEdgesSameCycles(declared, deps, v);
  }

  lemma SameEdgesSameCycles(a: Deps, b: Deps, v: string)
    requires forall x, y :: Edge(a, x, y) <==> Edge(b, x, y)
    ensures OnCycle(a, v) ==> OnCycle(b, v)
  {
    hide Edge;
    if c :| Edge(a, v, c) && Reach(a, c, v) {
      var p: seq<string> :| WalkFromTo(a, p, c, v);
      assert WalkFromTo(b, p, c, v);
      assert ReachPlus(b, v, v);
    }
  }

  lemma {:induction false} FirstOf(deps: Deps, extras: seq<Extra>, k: nat) returns (id: string)
    requires k < |extras| && ReturnsItself(deps, extras[k].id)
    ensures FirstSelfReturning(deps, extras, id)
    decreases k
  {
    hide ReturnsItself;
    if j :| 0 <= j < k && ReturnsItself(deps, extras[j].id) {
      id := FirstOf(deps, extras, j);
    } else {
      id := extras[k].id;
    }
  }

  /** A cycle is reported exactly when a non-empty id lies on a cycle of the declared
      dependencies. */
  lemma CycleReportedIffCyclic(deps: Deps, extras: seq<Extra>)
    requires Enumerates(deps, extras)
    ensures (exists id :: FirstSelfReturning(deps, extras, id)) <==> NonEmptyOnCycle(DependsOnOf(extras))
  {
    hide HasCycleFrom, OnCycle, ReturnsItself;
    SomeStartReturnsItself(deps);
    forall v ensures OnCycle(deps, v) <==> OnCycle(DependsOnOf(extras), v) {
      SameCycles(deps, extras, v);
    }
    if id :| FirstSelfReturning(deps, extras, id) {
      var k :| 0 <= k < |extras| && extras[k].id == id;
      DeclaredIds(extras, extras[k]);
    }
    if e :| e in deps && ReturnsItself(deps, e) {
      var x := Declared(extras, e);
      var k :| 0 <= k < |extras| && extras[k] == x;
      var id := FirstOf(deps, extras, k);
    }
  }

  /** The id that is reported lies on a cycle. */
  lemma CycleReportIsTrue(deps: Deps, extras: seq<Extra>, id: string)
    requires Enumerates(deps, extras) && FirstSelfReturning(deps, extras, id)
    ensures OnCycle(DependsOnOf(extras), id)
  {
    ReportIsReached(deps, id, {});
    SameCycles(deps, extras, id);
  }

  /** An extra with the empty id that depends on itself is a cycle, and nothing is reported. */
  lemma EmptyIdHidesItsLoop()
    ensures var extras := [Extra("", 0, None, [""], [], [])];
      var deps: Deps := map["" := [""]];
      && Enumerates(deps, extras) && OnCycle(DependsOnOf(extras), "")
      && forall id :: !FirstSelfReturning(deps, extras, id)
  {
    var extras := [Extra("", 0, None, [""], [], [])];
    assert extras[..0] == [];
    var declared := DependsOnOf(extras);
    assert declared == map["" := [""]];
    assert Edge(declared, "", "");
    ReachRefl(declared, "");
    assert !NonEmptyOnCycle(declared);
    CycleReportedIffCyclic(declared, extras);
  }

  /** No two issues of the list report a cycle. */
  ghost predicate OneCycleReport(issues: seq<Issue>) {
    forall i, j | 0 <= i < j < |issues| && issues[i].DependsOnCycle? :: !issues[j].DependsOnCycle?
  }

  lemma OneCycleReportBetween(x: seq<Issue>, y: seq<Issue>, z: seq<Issue>)
    requires |y| <= 1 && (forall i | i in x :: !i.DependsOnCycle?) && forall i | i in z :: !i.DependsOnCycle?
    ensures OneCycleReport(x + y + z)
  {
    var all := x + y + z;
    assert forall k | 0 <= k < |x| :: all[k] in x;
    assert forall k | |x| + |y| <= k < |all| :: all[k] in z;
  }

  /** Every complaint comes from one of the five checks. */
  ghost predicate Raised(c: Catalog, deps: Deps, i: Issue) {
    var levels := LevelOf(c.extras);
    match i
    case UndeclaredInLevel(_, _, _) => exists l :: l in c.levels && LevelIssue(levels, l, l.extras, i)
    case WrongLevel(_, _, _, _) => exists l :: l in c.levels && LevelIssue(levels, l, l.extras, i)
    case UndeclaredReference(_, _, _) => exists e :: e in c.extras && ReferenceIssue(levels, e, i)
    case UnknownSource(r) => r in c.relations && r.src !in levels
    case UnknownTarget(r) => r in c.relations && r.dst !in levels
    case DependsOnCycle(id) => FirstSelfReturning(deps, c.extras, id)
    case FlowViolated(_, _, _, _) => exists e :: e in c.extras && FlowIssue(levels, e, e.dependsOn, i)
  }

  lemma RaisedIsWarranted(c: Catalog, deps: Deps, i: Issue)
    ensures Raised(c, deps, i) <==> Warranted(c, deps, i)
  {
    LevelOfMeaning(c.extras);
    hide LevelOf, IsDeclared, HasLevel, FirstSelfReturning;
    if i.UndeclaredReference? {
      match i.field case DependsOn => case LazyImports => case OptionalForConsumer =>
    }
  }

  lemma WarrantedReferences(c: Catalog, deps: Deps, id: string, dep: string)
    ensures Warranted(c, deps, UndeclaredReference(id, DependsOn, dep)) <==>
      (exists e :: e in c.extras && e.id == id && dep in e.dependsOn) && forall e | e in c.extras :: e.id != dep
    ensures Warranted(c, deps, UndeclaredReference(id, LazyImports, dep)) <==>
      (exists e :: e in c.extras && e.id == id && dep in e.lazyImports) && forall e | e in c.extras :: e.id != dep
    ensures Warranted(c, deps, UndeclaredReference(id, OptionalForConsumer, dep)) <==>
      (exists e :: e in c.extras && e.id == id && dep in e.optionalForConsumer) && forall e | e in c.extras :: e.id != dep
  {}

  /** `_cross_validate`: complains of exactly what is warranted. */
  method CrossValidate(c: Catalog, deps: Deps) returns (issues: seq<Issue>)
    requires Enumerates(deps, c.extras)
    ensures forall i :: i in issues <==> Warranted(c, deps, i)
    ensures forall id, dep :: UndeclaredReference(id, DependsOn, dep) in issues <==>
      (exists e :: e in c.extras && e.id == id && dep in e.dependsOn) && forall e | e in c.extras :: e.id != dep
    ensures forall id, dep :: UndeclaredReference(id, LazyImports, dep) in issues <==>
      (exists e :: e in c.extras && e.id == id && dep in e.lazyImports) && forall e | e in c.extras :: e.id != dep
    ensures forall id, dep :: UndeclaredReference(id, OptionalForConsumer, dep) in issues <==>
      (exists e :: e in c.extras && e.id == id && dep in e.optionalForConsumer) && forall e | e in c.extras :: e.id != dep
    ensures (exists i :: i in issues && i.DependsOnCycle?) <==> NonEmptyOnCycle(DependsOnOf(c.extras))
    ensures OneCycleReport(issues)
  {
    hide OneCycleReport, NonEmptyOnCycle, ReturnsItself, Enumerates, Warranted;
    var levels := LevelOf(c.extras);
    var a := CheckLevels(c, levels);
    var b := CheckReferences(c, levels);
    var r := CheckRelations(c, levels);
    var y := CheckCycles(c, deps);
    var f := CheckFlow(c, levels);
    issues := a + b + r + y + f;
    assert forall i :: i in issues <==> Raised(c, deps, i);
    hide Raised;
    forall i ensures Raised(c, deps, i) <==> Warranted(c, deps, i) {
      RaisedIsWarranted(c, deps, i);
    }
    forall id, dep {
      WarrantedReferences(c, deps, id, dep);
    }
    OneCycleReportBetween(a + b + r, y, f);
    CycleReportedIffCyclic(deps, c.extras);
    if id :| FirstSelfReturning(deps, c.extras, id) {
      assert DependsOnCycle(id) in y;
    }
  }

  // --- What a clean check guarantees --------------------------------------------------------------

  ghost predicate Clean(c: Catalog, deps: Deps) {
    forall i :: !Warranted(c, deps, i)
  }

  lemma CleanEdge(c: Catalog, deps: Deps, a: string, b: string)
    requires Clean(c, deps) && Edge(DependsOnOf(c.extras), a, b)
    ensures var levels := LevelOf(c.extras);
      a in levels && b in levels && levels[b] <= levels[a]
  {
    hide FirstSelfReturning;
    var e := Declared(c.extras, a);
    LevelOfMeaning(c.extras);
    hide HasLevel, IsDeclared;
    assert !Warranted(c, deps, UndeclaredReference(a, DependsOn, b));
    var levels := LevelOf(c.extras);
    assert b in levels;
    assert !Warranted(c, deps, FlowViolated(a, e.level, b, levels[b]));
  }

  /** Along any chain of dependencies of a clean catalog every extra is declared, the level
      never rises, and no non-empty id repeats: so with non-empty ids no chain is longer than
      the number of extras. */
  lemma {:induction false} CleanMeansLayered(c: Catalog, deps: Deps, p: seq<string>)
    requires Enumerates(deps, c.extras) && Clean(c, deps)
    requires IsWalk(DependsOnOf(c.extras), p) && p[0] in LevelOf(c.extras)
    ensures var levels := LevelOf(c.extras);
      && (forall i | 0 <= i < |p| :: p[i] in levels)
      && (forall i, j | 0 <= i <= j < |p| :: levels[p[j]] <= levels[p[i]])
    ensures forall i, j | 0 <= i < j < |p| && p[i] != "" :: p[i] != p[j]
    ensures "" !in p ==> |p| <= |c.extras|
  {
    hide Clean, NonEmptyOnCycle, Warranted, Edge;
    LevelsFall(c, deps, p);
    CleanIsAcyclic(c, deps);
    forall i, j | 0 <= i < j < |p| && p[i] != "" ensures p[i] != p[j] {
      if p[i] == p[j] {
        RepeatIsCycle(DependsOnOf(c.extras), p, i, j);
      }
    }
    if "" !in p {
      Distinct(p, LevelOf(c.extras).Keys);
      FewIds(c.extras);
    }
  }

  lemma CleanIsAcyclic(c: Catalog, deps: Deps)
    requires Enumerates(deps, c.extras) && Clean(c, deps)
    ensures !NonEmptyOnCycle(DependsOnOf(c.extras))
  {
    hide FirstSelfReturning, NonEmptyOnCycle;
    CycleReportedIffCyclic(deps, c.extras);
    forall id ensures !FirstSelfReturning(deps, c.extras, id) {
      assert !Warranted(c, deps, DependsOnCycle(id));
    }
  }

  lemma {:induction false} LevelsFall(c: Catalog, deps: Deps, p: seq<string>)
    requires Clean(c, deps) && IsWalk(DependsOnOf(c.extras), p) && p[0] in LevelOf(c.extras)
    ensures forall i | 0 <= i < |p| :: p[i] in LevelOf(c.extras)
    ensures forall i, j | 0 <= i <= j < |p| :: LevelOf(c.extras)[p[j]] <= LevelOf(c.extras)[p[i]]
    decreases |p|
  {
    hide Clean, Edge;
    if |p| > 1 {
      var q := p[..|p| - 1];
      forall i | 0 <= i < |q| - 1 ensures Edge(DependsOnOf(c.extras), q[i], q[i + 1]) {
        assert Edge(DependsOnOf(c.extras), p[i], p[i + 1]);
      }
      LevelsFall(c, deps, q);
      assert Edge(DependsOnOf(c.extras), p[|p| - 2], p[|p| - 2 + 1]);
      CleanEdge(c, deps, p[|p| - 2], p[|p| - 1]);
    }
  }

  lemma RepeatIsCycle(adj: Deps, p: seq<string>, i: nat, j: nat)
    requires IsWalk(adj, p) && i < j < |p| && p[i] == p[j] && p[i] != ""
    ensures NonEmptyOnCycle(adj)
  {
    var q := p[i + 1..j + 1];
    forall k | 0 <= k < |q| - 1 ensures Edge(adj, q[k], q[k + 1]) {
      assert Edge(adj, p[i + 1 + k], p[i + 1 + k + 1]);
    }
    assert Edge(adj, p[i], p[i + 1]);
    assert WalkFromTo(adj, q, p[i + 1], p[i]);
    assert OnCycle(adj, p[i]);
  }

  lemma {:induction false} Distinct(p: seq<string>, ids: set<string>)
    requires NoDuplicates(p) && forall i | 0 <= i < |p| :: p[i] in ids
    ensures |p| <= |ids|
    decreases |p|
  {
    if p != [] {
      var front, last := p[..|p| - 1], p[|p| - 1];
      Distinct(front, ids - {last});
    }
  }

  lemma {:induction false} FewIds(extras: seq<Extra>)
    ensures |LevelOf(extras).Keys| <= |extras|
  {
    if extras != [] {
      FewIds(extras[..|extras| - 1]);
      assert LevelOf(extras).Keys == LevelOf(extras[..|extras| - 1]).Keys + {extras[|extras| - 1].id};
    }
  }
}
