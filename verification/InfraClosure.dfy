/** The worklist that collects the infra services a choice of extras needs. */
module InfraClosure {
  import opened Outcomes
  import opened Digraphs
  import opened Sequences
  import opened Searches
  import opened Catalogs

  /** `catalog.extra(id)`: the first extra with this id, or a KeyError. */
  function Find(extras: seq<Extra>, id: string): Option<Extra> {
    if extras == [] then None
    else if extras[0].id == id then Some(extras[0])
    else Find(extras[1..], id)
  }

  /** `e` has the id, and no extra before it does. */
  ghost predicate IsFirst(extras: seq<Extra>, id: string, e: Extra) {
    exists k :: 0 <= k < |extras| && extras[k] == e && e.id == id && forall j | 0 <= j < k :: extras[j].id != id
  }

  function Ids(extras: seq<Extra>): set<string> {
    set e | e in extras :: e.id
  }

  /** The dependencies the worklist follows; an undeclared id has none. */
  function Follows(extras: seq<Extra>): Deps {
    map id | id in Ids(extras) && Find(extras, id).Some? :: Find(extras, id).value.dependsOn
  }

  /** The infra service of an id: none if it is undeclared, has no service, or an empty one. */
  function Service(extras: seq<Extra>, id: string): Option<string> {
    match Find(extras, id)
    case Some(e) => if e.infraRequired == Some("") then None else e.infraRequired
    case None => None
  }

  lemma {:induction false} FindMeaning(extras: seq<Extra>, id: string)
    ensures Find(extras, id).Some? <==> id in Ids(extras)
    ensures Find(extras, id).Some? ==> Find(extras, id).value in extras && IsFirst(extras, id, Find(extras, id).value)
  {
    if extras != [] {
      assert extras == [extras[0]] + extras[1..];
      FindMeaning(extras[1..], id);
      if extras[0].id != id && Find(extras, id).Some? {
        IsFirstLater(extras, id, Find(extras, id).value);
      }
    }
  }

  lemma IsFirstLater(extras: seq<Extra>, id: string, e: Extra)
    requires extras != [] && extras[0].id != id && IsFirst(extras[1..], id, e)
    ensures IsFirst(extras, id, e)
  {
    var rest := extras[1..];
    var k :| 0 <= k < |rest| && rest[k] == e && e.id == id && forall j | 0 <= j < k :: rest[j].id != id;
    assert extras[k + 1] == e;
    assert forall j | 0 < j < k + 1 :: extras[j] == rest[j - 1];
  }

  /** What the worklist follows and collects, in terms of the extras alone. */
  lemma ServiceMeaning(extras: seq<Extra>, id: string, s: string, y: string)
    ensures Service(extras, id) == Some(s) <==>
      exists e :: IsFirst(extras, id, e) && e.infraRequired == Some(s) && s != ""
    ensures Edge(Follows(extras), id, y) <==> exists e :: IsFirst(extras, id, e) && y in e.dependsOn
  {
    FindMeaning(extras, id);
    if e :| IsFirst(extras, id, e) {
      assert e in extras;
      FirstIsOne(extras, id, e, Find(extras, id).value);
    }
  }

  lemma FirstIsOne(extras: seq<Extra>, id: string, d: Extra, e: Extra)
    requires IsFirst(extras, id, d) && IsFirst(extras, id, e)
    ensures d == e
  {}

  /** Everything the worklist may ever hold. */
  ghost function Mentioned(extras: seq<Extra>, seeds: seq<string>): set<string> {
    Elements(seeds) + set e, d | e in extras && d in e.dependsOn :: d
  }

  ghost predicate Needed(extras: seq<Extra>, seeds: seq<string>, id: string) {
    ReachedFromSome(Follows(extras), seeds, id)
  }

  ghost predicate WorklistInv(extras: seq<Extra>, seeds: seq<string>,
                              seen: set<string>, infra: set<string>, queue: seq<string>) {
    && (forall x | x in seen :: Needed(extras, seeds, x))
    && (forall x | x in queue :: Needed(extras, seeds, x) && x in Mentioned(extras, seeds))
    && (forall x | x in seeds :: x in seen || x in queue)
    && (forall x, y | x in seen && Edge(Follows(extras), x, y) :: y in seen || y in queue)
    && (forall s :: s in infra <==> exists x :: x in seen && Service(extras, x) == Some(s))
  }

  lemma WorklistStart(extras: seq<Extra>, seeds: seq<string>)
    ensures WorklistInv(extras, seeds, {}, {}, seeds)
  {
    forall x | x in seeds ensures Needed(extras, seeds, x) {
      ReachRefl(Follows(extras), x);
    }
  }

  lemma WorklistSkip(extras: seq<Extra>, seeds: seq<string>, seen: set<string>, infra: set<string>, queue: seq<string>)
    requires WorklistInv(extras, seeds, seen, infra, queue) && queue != [] && queue[|queue| - 1] in seen
    ensures WorklistInv(extras, seeds, seen, infra, queue[..|queue| - 1])
  {
    hide Needed, Service, Follows;
    assert queue == queue[..|queue| - 1] + [queue[|queue| - 1]];
  }

  function Dependencies(extras: seq<Extra>, id: string): seq<string> {
    match Find(extras, id) case Some(e) => e.dependsOn case None => []
  }

  lemma DependenciesNeeded(extras: seq<Extra>, seeds: seq<string>, id: string)
    requires Needed(extras, seeds, id)
    ensures forall y | y in Dependencies(extras, id) :: Needed(extras, seeds, y) && y in Mentioned(extras, seeds)
    ensures forall y | Edge(Follows(extras), id, y) :: y in Dependencies(extras, id)
  {
    hide Reach;
    FindMeaning(extras, id);
    var t :| t in seeds && Reach(Follows(extras), t, id);
    forall y | y in Dependencies(extras, id) ensures Needed(extras, seeds, y) && y in Mentioned(extras, seeds) {
      assert Edge(Follows(extras), id, y);
      ReachThenEdge(Follows(extras), t, id, y);
    }
  }

  lemma WorklistExpand(extras: seq<Extra>, seeds: seq<string>, seen: set<string>, infra: set<string>, queue: seq<string>)
    requires WorklistInv(extras, seeds, seen, infra, queue) && queue != [] && queue[|queue| - 1] !in seen
    ensures var id := queue[|queue| - 1];
      var service := match Service(extras, id) case Some(s) => {s} case None => {};
      WorklistInv(extras, seeds, seen + {id}, infra + service, queue[..|queue| - 1] + Dependencies(extras, id))
  {
    hide Service, Needed, Mentioned, Edge, Dependencies, Follows;
    var id := queue[|queue| - 1];
    assert queue == queue[..|queue| - 1] + [id];
    DependenciesNeeded(extras, seeds, id);
  }

  lemma WorklistEnd(extras: seq<Extra>, seeds: seq<string>, seen: set<string>, infra: set<string>)
    requires WorklistInv(extras, seeds, seen, infra, [])
    ensures forall x :: x in seen <==> Needed(extras, seeds, x)
  {
    hide Service, Follows, Reach;
    var adj := Follows(extras);
    forall x | Needed(extras, seeds, x) ensures x in seen {
      var t :| t in seeds && Reach(adj, t, x);
      ReachClosed(adj, seen, t, x);
    }
  }

  /** `_infra_services_for`: the services of everything reachable from the seeds, on any
      catalog, cyclic or with undeclared ids. */
  method InfraServicesFor(c: Catalog, seeds: seq<string>) returns (infra: set<string>)
    ensures forall s :: s in infra <==> exists x :: Needed(c.extras, seeds, x) && Service(c.extras, x) == Some(s)
    ensures forall s :: s in infra <==>
      s != "" && exists e :: IsNeeded(c.extras, seeds, e) && e.infraRequired == Some(s)
  {
    hide WorklistInv, Follows, IsNeeded;
    var seen: set<string> := {};
    infra := {};
    var queue := seeds;
    WorklistStart(c.extras, seeds);
    while queue != []
      invariant WorklistInv(c.extras, seeds, seen, infra, queue)
      decreases Mentioned(c.extras, seeds) - seen, |queue|
    {
      var id := queue[|queue| - 1];
      if id in seen {
        WorklistSkip(c.extras, seeds, seen, infra, queue);
        queue := queue[..|queue| - 1];
        continue;
      }
      WorklistExpand(c.extras, seeds, seen, infra, queue);
      LastIsMentioned(c.extras, seeds, seen, infra, queue);
      queue := queue[..|queue| - 1];
      seen := seen + {id};
      var extra := Find(c.extras, id);
      assert queue + [] == queue && infra + {} == infra;
      if extra.None? {
        continue;
      }
      if extra.value.infraRequired.Some? && extra.value.infraRequired.value != "" {
        infra := infra + {extra.value.infraRequired.value};
      }
      queue := queue + extra.value.dependsOn;
    }
    WorklistEnd(c.extras, seeds, seen, infra);
    WorklistServices(c.extras, seeds, seen, infra);
    forall s {
      NeededServices(c.extras, seeds, s);
    }
  }

  /** The seeds stand for `e`, or the dependencies lead to it from one of them. */
  ghost predicate IsNeeded(extras: seq<Extra>, seeds: seq<string>, e: Extra) {
    exists x :: IsFirst(extras, x, e) && Needed(extras, seeds, x)
  }

  lemma NeededServices(extras: seq<Extra>, seeds: seq<string>, s: string)
    ensures (exists x :: Needed(extras, seeds, x) && Service(extras, x) == Some(s)) <==>
      s != "" && exists e :: IsNeeded(extras, seeds, e) && e.infraRequired == Some(s)
  {
    hide Needed, Service, IsFirst;
    if x :| Needed(extras, seeds, x) && Service(extras, x) == Some(s) {
      ServiceMeaning(extras, x, s, "");
    }
    if e :| IsNeeded(extras, seeds, e) && e.infraRequired == Some(s) && s != "" {
      var x :| IsFirst(extras, x, e) && Needed(extras, seeds, x);
      ServiceMeaning(extras, x, s, "");
    }
  }

  lemma LastIsMentioned(extras: seq<Extra>, seeds: seq<string>, seen: set<string>, infra: set<string>, queue: seq<string>)
    requires WorklistInv(extras, seeds, seen, infra, queue) && queue != []
    ensures queue[|queue| - 1] in Mentioned(extras, seeds)
  {}

  lemma WorklistServices(extras: seq<Extra>, seeds: seq<string>, seen: set<string>, infra: set<string>)
    requires WorklistInv(extras, seeds, seen, infra, [])
    ensures forall s :: s in infra <==> exists x :: x in seen && Service(extras, x) == Some(s)
  {}
}
