/** The full evaluation of a project against the standard, and how it agrees with the short
    form `determine_level`. */
module Evaluations {
  import opened Outcomes
  import opened Digraphs
  import opened Sequences
  import opened Standards

  datatype Status = Satisfied | Failed | Skipped | OutOfScope

  datatype AtomResult = AtomResult(
    id: string, scope: Scope, status: Status, strategy: Option<Strategy>,
    required: seq<string>, present: seq<string>, missing: seq<string>)

  datatype FacetResult = FacetResult(
    id: string, satisfied: bool, required: seq<string>, accepted: seq<string>, missing: seq<string>)

  datatype LevelResult = LevelResult(id: string, achieved: bool, required: set<string>)

  datatype Report = Report(
    level: string, levelName: string,
    atoms: seq<AtomResult>, facets: seq<FacetResult>, levels: seq<LevelResult>)

  /** A project's own word on one atom. */
  datatype Override = Override(
    disabled: bool, resolve: seq<ResolveRule>, targets: seq<string>, aliases: seq<string>)

  /** What the project configures: no configuration is `PLAIN`. No `applicable` set means that
      every atom applies. */
  datatype Config = Config(
    skip: set<string>, overrides: map<string, Override>,
    applicable: Option<set<string>>, profileDisabled: set<string>)

  const PLAIN := Config({}, map[], None, {})

  // --- Atoms ---------------------------------------------------------------------------------------

  function ScopeOf(s: Standard, domain: string): Scope {
    var byId := ById(s.domains, (d: Domain) => d.id);
    if domain in byId then byId[domain].scope else Project
  }

  /** The scope of the domain's last entry; a domain that is not declared is project-scoped. */
  lemma ScopeMeaning(s: Standard, domain: string)
    ensures (forall d | d in s.domains :: d.id != domain) ==> ScopeOf(s, domain) == Project
    ensures forall d :: IsLastOf(s.domains, (d: Domain) => d.id, domain, d) ==> ScopeOf(s, domain) == d.scope
  {
    var id := (d: Domain) => d.id;
    ByIdMeaning(s.domains, id);
    forall d | IsLastOf(s.domains, id, domain, d) ensures ScopeOf(s, domain) == d.scope {
      LastIsOne(s.domains, id, domain, d, ById(s.domains, id)[domain]);
    }
  }

  function MakeTargets(rules: seq<ResolveRule>): seq<string> {
    if rules == [] then []
    else (if rules[0].strategy.Make? then rules[0].anyOf + rules[0].allOf else []) + MakeTargets(rules[1..])
  }

  /** Every `make` rule asks for any of `names` instead. */
  function Redirected(rules: seq<ResolveRule>, names: seq<string>): seq<ResolveRule> {
    if rules == [] then []
    else [if rules[0].strategy.Make? then rules[0].(anyOf := names, allOf := []) else rules[0]]
         + Redirected(rules[1..], names)
  }

  function Present(names: seq<string>, targets: set<string>): seq<string> {
    if names == [] then []
    else
      var last := names[|names| - 1];
      Present(names[..|names| - 1], targets) + if last in targets then [last] else []
  }

  function Absent(names: seq<string>, targets: set<string>): seq<string> {
    if names == [] then []
    else
      var last := names[|names| - 1];
      Absent(names[..|names| - 1], targets) + if last !in targets then [last] else []
  }

  /** The rules in force for an atom, and the Make targets they ask for. */
  function Rules(atom: Atom, c: Config): (seq<ResolveRule>, seq<string>) {
    var plain := MakeTargets(atom.resolve);
    if atom.id !in c.overrides then (atom.resolve, plain)
    else
      var o := c.overrides[atom.id];
      if o.resolve != [] then (o.resolve, if o.targets != [] then o.targets + o.aliases else plain)
      else if o.targets != [] || o.aliases != [] then
        (Redirected(atom.resolve, o.targets + o.aliases), o.targets + o.aliases)
      else (atom.resolve, plain)
  }

  /** The loop over the rules: the first that holds decides. */
  function Decide(atom: Atom, scope: Scope, rules: seq<ResolveRule>, names: seq<string>,
                  targets: set<string>, files: Files): AtomResult {
    if rules == [] then AtomResult(atom.id, scope, Failed, None, names, [], Absent(names, targets))
    else if RuleHolds(rules[0], targets, Some(files)) then
      var present := if rules[0].strategy.Make? then Present(rules[0].anyOf + rules[0].allOf, targets) else [];
      AtomResult(atom.id, scope, Satisfied, Some(rules[0].strategy), names, present, [])
    else Decide(atom, scope, rules[1..], names, targets, files)
  }

  /** `_evaluate_atom`. */
  function EvaluateAtom(atom: Atom, scope: Scope, c: Config, targets: set<string>, files: Files): AtomResult {
    var plain := MakeTargets(atom.resolve);
    if c.applicable.Some? && atom.id !in c.applicable.value then
      AtomResult(atom.id, scope, OutOfScope, None, plain, [], [])
    else if atom.id in c.skip || atom.domain in c.skip then
      AtomResult(atom.id, scope, Skipped, None, plain, [], [])
    else if scope == Organization then
      AtomResult(atom.id, scope, OutOfScope, None, plain, [], [])
    else if atom.id in c.profileDisabled || (atom.id in c.overrides && c.overrides[atom.id].disabled) then
      AtomResult(atom.id, scope, Skipped, None, plain, [], [])
    else
      Decide(atom, scope, Rules(atom, c).0, Rules(atom, c).1, targets, files)
  }

  lemma {:induction false} DecideMeaning(atom: Atom, scope: Scope, rules: seq<ResolveRule>, names: seq<string>,
                                         targets: set<string>, files: Files)
    ensures var r := Decide(atom, scope, rules, names, targets, files);
      && r.status == (if exists rule :: rule in rules && RuleHolds(rule, targets, Some(files)) then Satisfied else Failed)
      && r.id == atom.id
  {
    if rules != [] {
      DecideMeaning(atom, scope, rules[1..], names, targets, files);
      assert forall rule :: rule in rules <==> rule == rules[0] || rule in rules[1..];
    }
  }

  // --- What an evaluated atom says ---------------------------------------------------------------

  /** The profile applies to the atom. */
  ghost predicate Applies(atom: Atom, c: Config) {
    c.applicable.Some? ==> atom.id in c.applicable.value
  }

  /** The skip list names the atom or its domain. */
  ghost predicate Listed(atom: Atom, c: Config) {
    atom.id in c.skip || atom.domain in c.skip
  }

  /** The profile or the project's override disables the atom. */
  ghost predicate Disabled(atom: Atom, c: Config) {
    atom.id in c.profileDisabled || (atom.id in c.overrides && c.overrides[atom.id].disabled)
  }

  ghost predicate IsAskedAt(atom: Atom, scope: Scope, c: Config) {
    Applies(atom, c) && !Listed(atom, c) && scope != Organization && !Disabled(atom, c)
  }

  /** The rules in force: the override's own if it has any; with targets or aliases alone, the
      atom's with these names in the place of what its `make` rules ask for; otherwise the atom's. */
  ghost predicate AreInForce(atom: Atom, c: Config, rules: seq<ResolveRule>) {
    if atom.id in c.overrides && c.overrides[atom.id].resolve != [] then rules == c.overrides[atom.id].resolve
    else if atom.id in c.overrides && (c.overrides[atom.id].targets != [] || c.overrides[atom.id].aliases != []) then
      && |rules| == |atom.resolve|
      && forall i | 0 <= i < |rules| :: var rule := atom.resolve[i];
           rules[i] == if rule.strategy != Make then rule
                       else ResolveRule(Make, c.overrides[atom.id].targets + c.overrides[atom.id].aliases, [], rule.file, rule.path)
    else rules == atom.resolve
  }

  lemma {:induction false} RedirectedAt(rules: seq<ResolveRule>, names: seq<string>)
    ensures var r := Redirected(rules, names);
      |r| == |rules| && forall i | 0 <= i < |r| ::
        r[i] == if rules[i].strategy != Make then rules[i] else ResolveRule(Make, names, [], rules[i].file, rules[i].path)
  {
    if rules != [] {
      RedirectedAt(rules[1..], names);
    }
  }

  lemma RulesMeaning(atom: Atom, c: Config)
    ensures AreInForce(atom, c, Rules(atom, c).0)
  {
    if atom.id in c.overrides {
      RedirectedAt(atom.resolve, c.overrides[atom.id].targets + c.overrides[atom.id].aliases);
    }
  }

  /** Which status an atom gets: the profile comes before the skip list, the skip list before
      the scope, the scope before a disabling, and only then do the rules in force decide. */
  lemma StatusMeaning(atom: Atom, scope: Scope, c: Config, targets: set<string>, files: Files)
    ensures var status := EvaluateAtom(atom, scope, c, targets, files).status;
      && (status.OutOfScope? <==> !Applies(atom, c) || (!Listed(atom, c) && scope == Organization))
      && (status.Skipped? <==> Applies(atom, c) && (Listed(atom, c) || (scope != Organization && Disabled(atom, c))))
      && (status.Satisfied? <==>
           IsAskedAt(atom, scope, c) &&
           exists rules :: AreInForce(atom, c, rules) && exists rule :: rule in rules && RuleHolds(rule, targets, Some(files)))
  {
    hide RuleHolds;
    RulesMeaning(atom, c);
    DecideMeaning(atom, scope, Rules(atom, c).0, Rules(atom, c).1, targets, files);
    forall rules | AreInForce(atom, c, rules) ensures rules == Rules(atom, c).0 {
      InForceIsOne(atom, c, rules, Rules(atom, c).0);
    }
    hide Rules, AreInForce, Decide;
  }

  lemma InForceIsOne(atom: Atom, c: Config, rules: seq<ResolveRule>, others: seq<ResolveRule>)
    requires AreInForce(atom, c, rules) && AreInForce(atom, c, others)
    ensures rules == others
  {}

  /** The names in `present` and `missing`: those asked for that are there, or are not, in order. */
  lemma {:induction false} PresentAndAbsent(names: seq<string>, targets: set<string>)
    ensures Selects(names, IsThere(targets), Present(names, targets))
    ensures Selects(names, IsNotThere(targets), Absent(names, targets))
    ensures |Present(names, targets)| + |Absent(names, targets)| == |names|
  {
    if names == [] {
      SelectsNothing(IsThere(targets));
      SelectsNothing(IsNotThere(targets));
    } else {
      var front, last := names[..|names| - 1], names[|names| - 1];
      assert names == front + [last];
      PresentAndAbsent(front, targets);
      SelectsNext(front, last, IsThere(targets), Present(front, targets));
      SelectsNext(front, last, IsNotThere(targets), Absent(front, targets));
    }
  }

  ghost function IsThere(targets: set<string>): string -> bool {
    (t: string) => t in targets
  }

  ghost function IsNotThere(targets: set<string>): string -> bool {
    (t: string) => t !in targets
  }

  /** The Make targets that rules ask for, rule by rule. */
  lemma {:induction false} MakeTargetsMeaning(rules: seq<ResolveRule>, more: seq<ResolveRule>)
    ensures MakeTargets(rules + more) == MakeTargets(rules) + MakeTargets(more)
  {
    if rules == [] {
      assert rules + more == more;
    } else {
      MakeTargetsFirst(rules);
      MakeTargetsFirst(rules + more);
      assert (rules + more)[1..] == rules[1..] + more && (rules + more)[0] == rules[0];
      MakeTargetsMeaning(rules[1..], more);
      hide MakeTargets;
      var first := if rules[0].strategy == Make then rules[0].anyOf + rules[0].allOf else [];
      assert first + (MakeTargets(rules[1..]) + MakeTargets(more)) == (first + MakeTargets(rules[1..])) + MakeTargets(more);
    }
  }

  lemma MakeTargetsFirst(rules: seq<ResolveRule>)
    requires rules != []
    ensures MakeTargets(rules) ==
      (if rules[0].strategy == Make then rules[0].anyOf + rules[0].allOf else []) + MakeTargets(rules[1..])
  {}

  lemma MakeTargetsOfOne(rule: ResolveRule)
    ensures MakeTargets([rule]) == if rule.strategy == Make then rule.anyOf + rule.allOf else []
  {
    assert [rule][1..] == [];
  }

  /** The targets that an atom which is asked about reports as required. */
  ghost function AskedTargets(atom: Atom, c: Config): seq<string> {
    if atom.id in c.overrides && (c.overrides[atom.id].targets != [] ||
                                  (c.overrides[atom.id].resolve == [] && c.overrides[atom.id].aliases != []))
    then c.overrides[atom.id].targets + c.overrides[atom.id].aliases
    else MakeTargets(atom.resolve)
  }

  /** The first rule that holds, if there is one, is the one reported. */
  ghost predicate IsFirstHolding(rules: seq<ResolveRule>, i: int, targets: set<string>, files: Files) {
    && 0 <= i < |rules| && RuleHolds(rules[i], targets, Some(files))
    && forall j | 0 <= j < i :: !RuleHolds(rules[j], targets, Some(files))
  }

  ghost predicate ReportsRule(r: AtomResult, rule: ResolveRule, targets: set<string>) {
    && r.status == Satisfied && r.strategy == Some(rule.strategy) && r.missing == []
    && if rule.strategy == Make then Selects(rule.anyOf + rule.allOf, IsThere(targets), r.present) else r.present == []
  }

  lemma {:induction false} DecideReports(atom: Atom, scope: Scope, rules: seq<ResolveRule>, names: seq<string>,
                                         targets: set<string>, files: Files)
    ensures var r := Decide(atom, scope, rules, names, targets, files);
      && r.id == atom.id && r.scope == scope && r.required == names
      && (r.status == Satisfied ==> exists i :: IsFirstHolding(rules, i, targets, files) && ReportsRule(r, rules[i], targets))
      && (r.status != Satisfied ==> r.strategy == None && r.present == [] && Selects(names, IsNotThere(targets), r.missing))
  {
    hide RuleHolds, Selects;
    if rules == [] {
      PresentAndAbsent(names, targets);
    } else if RuleHolds(rules[0], targets, Some(files)) {
      PresentAndAbsent(rules[0].anyOf + rules[0].allOf, targets);
      assert IsFirstHolding(rules, 0, targets, files);
    } else {
      DecideReports(atom, scope, rules[1..], names, targets, files);
      var r := Decide(atom, scope, rules[1..], names, targets, files);
      if i :| IsFirstHolding(rules[1..], i, targets, files) && ReportsRule(r, rules[1..][i], targets) {
        assert rules[i + 1] == rules[1..][i];
        assert forall j | 0 < j < i + 1 :: rules[j] == rules[1..][j - 1];
        assert IsFirstHolding(rules, i + 1, targets, files);
      }
    }
  }

  /** All that the result for an atom says besides its status. */
  lemma AtomResultMeaning(atom: Atom, scope: Scope, c: Config, targets: set<string>, files: Files)
    ensures var r := EvaluateAtom(atom, scope, c, targets, files);
      && r.id == atom.id && r.scope == scope
      && r.required == (if IsAskedAt(atom, scope, c) then AskedTargets(atom, c) else MakeTargets(atom.resolve))
      && (r.status == Satisfied ==>
            exists rules, i :: (AreInForce(atom, c, rules) && IsFirstHolding(rules, i, targets, files)
                                && ReportsRule(r, rules[i], targets)))
      && (r.status == Failed ==> r.strategy == None && r.present == [] && Selects(r.required, IsNotThere(targets), r.missing))
      && (r.status == Skipped || r.status == OutOfScope ==> r.strategy == None && r.present == [] && r.missing == [])
  {
    hide RuleHolds, Selects, MakeTargets;
    RulesMeaning(atom, c);
    assert Rules(atom, c).1 == AskedTargets(atom, c);
    DecideReports(atom, scope, Rules(atom, c).0, Rules(atom, c).1, targets, files);
    DecideMeaning(atom, scope, Rules(atom, c).0, Rules(atom, c).1, targets, files);
    hide Rules, AreInForce, AskedTargets, Decide, ReportsRule;
  }

  /** With its targets overridden, an atom asks for any one of them wherever it asked for a Make
      target before, and for everything else as before. */
  lemma {:induction false} RedirectedMeaning(rules: seq<ResolveRule>, names: seq<string>, targets: set<string>, files: Files)
    requires names != []
    ensures (exists rule :: rule in Redirected(rules, names) && RuleHolds(rule, targets, Some(files))) <==>
      || ((exists rule :: rule in rules && rule.strategy.Make?) && exists t :: t in names && t in targets)
      || (exists rule :: rule in rules && !rule.strategy.Make? && RuleHolds(rule, targets, Some(files)))
  {
    if rules != [] {
      RedirectedMeaning(rules[1..], names, targets, files);
      assert rules == [rules[0]] + rules[1..];
      var first := if rules[0].strategy.Make? then rules[0].(anyOf := names, allOf := []) else rules[0];
      assert Redirected(rules, names) == [first] + Redirected(rules[1..], names);
      assert first in Redirected(rules, names);
      assert first.strategy.Make? ==> (RuleHolds(first, targets, Some(files)) <==> exists t :: t in names && t in targets);
    }
  }

  /** With no configuration and outside organization scope, an atom is satisfied or failed, as
      its own check says. */
  lemma PlainAtom(atom: Atom, scope: Scope, targets: set<string>, files: Files)
    ensures EvaluateAtom(atom, scope, PLAIN, targets, files).status ==
            if scope == Organization then OutOfScope
            else if AtomHolds(atom, targets, Some(files)) then Satisfied else Failed
  {
    DecideMeaning(atom, scope, atom.resolve, MakeTargets(atom.resolve), targets, files);
  }

  /** What counts towards a facet or a level. */
  predicate Accepts(s: Status) {
    s != Failed
  }

  /** More Make targets leave an atom's status as it is, or turn a failed atom into a satisfied
      one, whatever is configured. */
  lemma MoreTargetsKeepAtom(atom: Atom, scope: Scope, c: Config, targets: set<string>, more: set<string>, files: Files)
    requires targets <= more
    ensures var before, after := EvaluateAtom(atom, scope, c, targets, files), EvaluateAtom(atom, scope, c, more, files);
      after.status == before.status || (before.status == Failed && after.status == Satisfied)
  {
    hide Rules, RuleHolds;
    var (rules, names) := Rules(atom, c);
    DecideMeaning(atom, scope, rules, names, targets, files);
    DecideMeaning(atom, scope, rules, names, more, files);
    if rule :| rule in rules && RuleHolds(rule, targets, Some(files)) {
      MoreTargetsKeepRule(rule, targets, more, Some(files));
    }
  }

  // --- Statuses by id ------------------------------------------------------------------------------

  /** What is given to one evaluation. */
  datatype Subject = Subject(config: Config, targets: set<string>, files: Files)

  function ResultOf(s: Standard, p: Subject, atom: Atom): AtomResult {
    EvaluateAtom(atom, ScopeOf(s, atom.domain), p.config, p.targets, p.files)
  }

  /** `atom_status` once `atoms` have been gone through. */
  function Statuses(s: Standard, p: Subject, atoms: seq<Atom>): map<string, Status> {
    if atoms == [] then map[]
    else
      var last := atoms[|atoms| - 1];
      Statuses(s, p, atoms[..|atoms| - 1])[last.id := ResultOf(s, p, last).status]
  }

  lemma {:induction false} StatusesById(s: Standard, p: Subject, atoms: seq<Atom>)
    ensures var byId := ById(atoms, (a: Atom) => a.id);
      && Statuses(s, p, atoms).Keys == byId.Keys
      && forall a :: a in byId ==> Statuses(s, p, atoms)[a] == ResultOf(s, p, byId[a]).status
  {
    hide ResultOf;
    if atoms != [] {
      StatusesById(s, p, atoms[..|atoms| - 1]);
    }
  }

  /** The status an id has in the end counts. */
  predicate Accepted(s: Standard, p: Subject, aid: string) {
    aid in AtomsById(s) &&
    var status := ResultOf(s, p, AtomsById(s)[aid]).status;
    status == Satisfied || status == Skipped || status == OutOfScope
  }

  predicate InStatuses(statuses: map<string, Status>, aid: string) {
    aid in statuses && Accepts(statuses[aid])
  }

  lemma AcceptedIsInStatuses(s: Standard, p: Subject, aid: string)
    ensures InStatuses(Statuses(s, p, s.atoms), aid) <==> Accepted(s, p, aid)
  {
    StatusesById(s, p, s.atoms);
  }

  // --- Facets and levels ---------------------------------------------------------------------------

  predicate FacetPasses(s: Standard, p: Subject, f: Facet) {
    var r := Required(f, FacetsById(s), {});
    r.Some? && forall aid | aid in r.value :: Accepted(s, p, aid)
  }

  /** A level passes when all that its existing facets require is accepted: unlike the short
      form, a facet that does not exist is passed over. */
  predicate LevelPasses(s: Standard, p: Subject, level: Level) {
    forall fid | fid in level.facets && fid in FacetsById(s) :: FacetPasses(s, p, FacetsById(s)[fid])
  }

  predicate Resolves(s: Standard) {
    forall f | f in s.facets :: Required(f, FacetsById(s), {}).Some?
  }

  lemma ResolvesById(s: Standard, fid: string)
    requires Resolves(s) && fid in FacetsById(s)
    ensures Required(FacetsById(s)[fid], FacetsById(s), {}).Some?
  {
    ByIdMeaning(s.facets, (f: Facet) => f.id);
  }

  ghost predicate FacetResultIs(s: Standard, p: Subject, f: Facet, r: FacetResult) {
    && r.id == f.id
    && Required(f, FacetsById(s), {}) == Some(r.required)
    && (r.satisfied <==> FacetPasses(s, p, f))
    && Selects(r.required, aid => Accepted(s, p, aid), r.accepted)
    && Selects(r.required, aid => !Accepted(s, p, aid), r.missing)
  }

  predicate RequiredByLevel(s: Standard, level: Level, n: nat, aid: string)
    requires n <= |level.facets|
  {
    exists i | 0 <= i < n :: level.facets[i] in FacetsById(s) &&
      var r := Required(FacetsById(s)[level.facets[i]], FacetsById(s), {});
      r.Some? && aid in r.value
  }

  ghost predicate LevelResultIs(s: Standard, p: Subject, level: Level, r: LevelResult) {
    && r.id == level.id
    && (r.achieved <==> LevelPasses(s, p, level))
    && forall aid :: aid in r.required <==> RequiredByLevel(s, level, |level.facets|, aid)
  }

  method EvaluateAtoms(s: Standard, p: Subject) returns (results: seq<AtomResult>, statuses: map<string, Status>)
    ensures |results| == |s.atoms| && forall k | 0 <= k < |results| :: results[k] == ResultOf(s, p, s.atoms[k])
    ensures statuses == Statuses(s, p, s.atoms)
  {
    hide ResultOf;
    results, statuses := [], map[];
    for i := 0 to |s.atoms|
      invariant |results| == i && forall k | 0 <= k < i :: results[k] == ResultOf(s, p, s.atoms[k])
      invariant statuses == Statuses(s, p, s.atoms[..i])
    {
      assert s.atoms[..i + 1][..i] == s.atoms[..i];
      var result := ResultOf(s, p, s.atoms[i]);
      results := results + [result];
      statuses := statuses[s.atoms[i].id := result.status];
    }
    assert s.atoms[..|s.atoms|] == s.atoms;
  }

  method EvaluateFacet(s: Standard, p: Subject, f: Facet, statuses: map<string, Status>)
    returns (r: Option<FacetResult>)
    requires statuses == Statuses(s, p, s.atoms)
    ensures r.None? <==> Required(f, FacetsById(s), {}).None?
    ensures r.Some? ==> FacetResultIs(s, p, f, r.value)
  {
    hide Required, Accepted, InStatuses, Statuses, FacetsById, Selects;
    var required := Required(f, FacetsById(s), {});
    if required.None? {
      return None;
    }
    var ids := required.value;
    var accepted: seq<string>, missing: seq<string> := [], [];
    ghost var yes, no := aid => Accepted(s, p, aid), aid => !Accepted(s, p, aid);
    SelectsNothing(yes);
    SelectsNothing(no);
    for i := 0 to |ids|
      invariant Selects(ids[..i], yes, accepted) && Selects(ids[..i], no, missing)
      invariant missing == [] <==> forall k | 0 <= k < i :: Accepted(s, p, ids[k])
    {
      assert ids[..i + 1] == ids[..i] + [ids[i]];
      AcceptedIsInStatuses(s, p, ids[i]);
      SelectsNext(ids[..i], ids[i], yes, accepted);
      SelectsNext(ids[..i], ids[i], no, missing);
      assert accepted + [] == accepted && missing + [] == missing;
      if InStatuses(statuses, ids[i]) {
        accepted := accepted + [ids[i]];
      } else {
        missing := missing + [ids[i]];
      }
    }
    assert ids[..|ids|] == ids;
    return Some(FacetResult(f.id, |missing| == 0, ids, accepted, missing));
  }

  method EvaluateFacets(s: Standard, p: Subject, statuses: map<string, Status>) returns (r: Result<seq<FacetResult>, Fault>)
    requires statuses == Statuses(s, p, s.atoms)
    ensures r.Ok? <==> Resolves(s)
    ensures r.Ok? ==> |r.value| == |s.facets| && forall k | 0 <= k < |s.facets| :: FacetResultIs(s, p, s.facets[k], r.value[k])
  {
    hide Required, FacetResultIs, Statuses, FacetsById;
    var results := [];
    for i := 0 to |s.facets|
      invariant |results| == i && forall k | 0 <= k < i :: FacetResultIs(s, p, s.facets[k], results[k])
      invariant forall k | 0 <= k < i :: Required(s.facets[k], FacetsById(s), {}).Some?
    {
      var result := EvaluateFacet(s, p, s.facets[i], statuses);
      if result.None? {
        assert s.facets[i] in s.facets;
        return Err(RecursionError);
      }
      results := results + [result.value];
    }
    return Ok(results);
  }

  method EvaluateLevel(s: Standard, p: Subject, level: Level, statuses: map<string, Status>) returns (r: LevelResult)
    requires statuses == Statuses(s, p, s.atoms) && Resolves(s)
    ensures LevelResultIs(s, p, level, r)
  {
    hide Required, Accepted, InStatuses, Statuses, FacetsById, Resolves;
    var facetsById := FacetsById(s);
    var required: set<string> := {};
    for i := 0 to |level.facets|
      invariant forall aid :: aid in required <==> RequiredByLevel(s, level, i, aid)
    {
      var fid := level.facets[i];
      ghost var before := required;
      if fid in facetsById {
        ResolvesById(s, fid);
        var r := Required(facetsById[fid], facetsById, {});
        required := required + (set aid | aid in r.value);
      }
      forall aid ensures aid in required <==> RequiredByLevel(s, level, i + 1, aid) {
        OneFacetMore(s, level, i, aid);
      }
    }
    var ok := forall aid | aid in required :: InStatuses(statuses, aid);
    assert ok <==> LevelPasses(s, p, level) by {
      forall aid ensures InStatuses(statuses, aid) <==> Accepted(s, p, aid) {
        AcceptedIsInStatuses(s, p, aid);
      }
      LevelPassesById(s, p, level);
    }
    return LevelResult(level.id, ok, required);
  }

  lemma OneFacetMore(s: Standard, level: Level, i: nat, aid: string)
    requires i < |level.facets|
    ensures RequiredByLevel(s, level, i + 1, aid) <==>
            RequiredByLevel(s, level, i, aid) ||
            (level.facets[i] in FacetsById(s) &&
             var r := Required(FacetsById(s)[level.facets[i]], FacetsById(s), {});
             r.Some? && aid in r.value)
  {
    hide Required, FacetsById;
  }

  lemma LevelPassesById(s: Standard, p: Subject, level: Level)
    requires Resolves(s)
    ensures LevelPasses(s, p, level) <==>
            forall aid :: RequiredByLevel(s, level, |level.facets|, aid) ==> Accepted(s, p, aid)
  {
    hide Required, FacetsById, Resolves, Accepted;
    if forall aid :: RequiredByLevel(s, level, |level.facets|, aid) ==> Accepted(s, p, aid) {
      forall fid | fid in level.facets && fid in FacetsById(s) ensures FacetPasses(s, p, FacetsById(s)[fid]) {
        ResolvesById(s, fid);
        var i :| 0 <= i < |level.facets| && level.facets[i] == fid;
        var r := Required(FacetsById(s)[fid], FacetsById(s), {});
        forall aid | aid in r.value ensures Accepted(s, p, aid) {
          assert RequiredByLevel(s, level, |level.facets|, aid);
        }
      }
    }
  }

  /** The level the full evaluation arrives at. */
  function EvaluatedLevel(s: Standard, p: Subject): (r: nat)
    ensures r == 0 || r < |s.levels|
  {
    LastPassing(s.levels, l => LevelPasses(s, p, l))
  }

  /** The report names the last level that it calls achieved, or the first level. */
  ghost predicate IsLastAchieved(levels: seq<Level>, r: Report, i: int) {
    && 0 <= i < |levels| == |r.levels|
    && r.level == levels[i].id && r.levelName == levels[i].name
    && (i > 0 ==> r.levels[i].achieved)
    && forall j | i < j < |levels| :: !r.levels[j].achieved
  }

  lemma LastIsAchieved(s: Standard, p: Subject, r: Report)
    requires s.levels != [] && |r.levels| == |s.levels|
    requires forall k | 0 <= k < |s.levels| :: LevelResultIs(s, p, s.levels[k], r.levels[k])
    requires r.level == s.levels[EvaluatedLevel(s, p)].id && r.levelName == s.levels[EvaluatedLevel(s, p)].name
    ensures exists i :: IsLastAchieved(s.levels, r, i)
  {
    hide LevelPasses, RequiredByLevel;
    assert IsLastAchieved(s.levels, r, EvaluatedLevel(s, p));
  }

  lemma ResultOfMeaning(s: Standard, p: Subject, atom: Atom)
    ensures ResultOf(s, p, atom) == EvaluateAtom(atom, ScopeOf(s, atom.domain), p.config, p.targets, p.files)
  {}

  /** `evaluate`. */
  method Evaluate(s: Standard, p: Subject) returns (r: Result<Report, Fault>)
    ensures r.Ok? <==> Resolves(s)
    ensures r.Ok? ==>
              && r.value.level == LevelAt(s.levels, EvaluatedLevel(s, p)).id
              && r.value.levelName == LevelAt(s.levels, EvaluatedLevel(s, p)).name
    ensures r.Ok? ==>
              && |r.value.atoms| == |s.atoms|
              && forall k | 0 <= k < |s.atoms| :: r.value.atoms[k] ==
                   EvaluateAtom(s.atoms[k], ScopeOf(s, s.atoms[k].domain), p.config, p.targets, p.files)
    ensures r.Ok? ==>
              && |r.value.facets| == |s.facets|
              && forall k | 0 <= k < |s.facets| :: FacetResultIs(s, p, s.facets[k], r.value.facets[k])
    ensures r.Ok? ==>
              && |r.value.levels| == |s.levels|
              && forall k | 0 <= k < |s.levels| :: LevelResultIs(s, p, s.levels[k], r.value.levels[k])
    ensures r.Ok? && s.levels == [] ==> r.value.level == "L0" && r.value.levelName == "Bootstrap"
    ensures r.Ok? && s.levels != [] ==> exists i :: IsLastAchieved(s.levels, r.value, i)
  {
    hide Resolves, FacetResultIs, LevelPasses, ResultOf, Statuses, EvaluateAtom, ScopeOf, IsLastAchieved;
    var atoms, statuses := EvaluateAtoms(s, p);
    var facets := EvaluateFacets(s, p, statuses);
    if facets.Err? {
      return Err(RecursionError);
    }
    ghost var passes := l => LevelPasses(s, p, l);
    var achieved := LevelAt(s.levels, 0);
    var levels := [];
    for i := 0 to |s.levels|
      invariant achieved == LevelAt(s.levels, LastPassing(s.levels[..i], passes))
      invariant |levels| == i && forall k | 0 <= k < i :: LevelResultIs(s, p, s.levels[k], levels[k])
    {
      assert s.levels[..i + 1][..i] == s.levels[..i];
      var result := EvaluateLevel(s, p, s.levels[i], statuses);
      if result.achieved {
        achieved := s.levels[i];
      }
      levels := levels + [result];
    }
    assert s.levels[..|s.levels|] == s.levels;
    forall k | 0 <= k < |s.atoms|
      ensures atoms[k] == EvaluateAtom(s.atoms[k], ScopeOf(s, s.atoms[k].domain), p.config, p.targets, p.files)
    {
      ResultOfMeaning(s, p, s.atoms[k]);
    }
    r := Ok(Report(achieved.id, achieved.name, atoms, facets.value, levels));
    if s.levels != [] {
      LastIsAchieved(s, p, r.value);
    }
  }

  // --- More Make targets -----------------------------------------------------------------------------

  lemma {:induction false} MorePassesIsNoLower(levels: seq<Level>, fewer: Level -> bool, more: Level -> bool)
    requires forall l | l in levels :: fewer(l) ==> more(l)
    ensures LastPassing(levels, fewer) <= LastPassing(levels, more)
  {
    if levels != [] {
      assert forall l | l in levels[..|levels| - 1] :: l in levels;
      MorePassesIsNoLower(levels[..|levels| - 1], fewer, more);
    }
  }

  lemma MoreTargetsKeepAccepted(s: Standard, p: Subject, more: set<string>, aid: string)
    requires p.targets <= more && Accepted(s, p, aid)
    ensures Accepted(s, p.(targets := more), aid)
  {
    var atom := AtomsById(s)[aid];
    MoreTargetsKeepAtom(atom, ScopeOf(s, atom.domain), p.config, p.targets, more, p.files);
  }

  /** Adding Make targets never loses a facet, whatever is configured. */
  lemma MoreTargetsKeepFacet(s: Standard, p: Subject, more: set<string>, f: Facet)
    requires p.targets <= more && FacetPasses(s, p, f)
    ensures FacetPasses(s, p.(targets := more), f)
  {
    hide Accepted, Required;
    forall aid | aid in Required(f, FacetsById(s), {}).value ensures Accepted(s, p.(targets := more), aid) {
      MoreTargetsKeepAccepted(s, p, more, aid);
    }
  }

  /** Adding Make targets never lowers the level the evaluation arrives at. */
  lemma MoreTargetsNeverLowerLevel(s: Standard, p: Subject, more: set<string>)
    requires p.targets <= more
    ensures EvaluatedLevel(s, p) <= EvaluatedLevel(s, p.(targets := more))
  {
    hide FacetPasses;
    var q := p.(targets := more);
    forall l | l in s.levels ensures LevelPasses(s, p, l) ==> LevelPasses(s, q, l) {
      if LevelPasses(s, p, l) {
        forall fid | fid in l.facets && fid in FacetsById(s) ensures FacetPasses(s, q, FacetsById(s)[fid]) {
          MoreTargetsKeepFacet(s, p, more, FacetsById(s)[fid]);
        }
      }
    }
    MorePassesIsNoLower(s.levels, l => LevelPasses(s, p, l), l => LevelPasses(s, q, l));
  }

  // --- The short form --------------------------------------------------------------------------------

  /** The level the short form arrives at. */
  function DeterminedLevel(s: Standard, targets: set<string>, files: Files): nat {
    LastPassing(s.levels, l => LevelHolds(s, targets, Some(files), l))
  }

  lemma MoreTargetsKeepLevelHolds(s: Standard, targets: set<string>, more: set<string>, root: Option<Files>, level: Level)
    requires targets <= more && LevelHolds(s, targets, root, level)
    ensures LevelHolds(s, more, root, level)
  {
    hide Required, RuleHolds, FacetsById, AtomsById;
    forall fid | fid in level.facets ensures FacetHolds(s, more, root, fid) {
      assert FacetHolds(s, targets, root, fid);
      forall aid | aid in Required(FacetsById(s)[fid], FacetsById(s), {}).value ensures AtomIdHolds(s, more, root, aid) {
        assert AtomIdHolds(s, targets, root, aid);
        var rule :| rule in AtomsById(s)[aid].resolve && RuleHolds(rule, targets, root);
        MoreTargetsKeepRule(rule, targets, more, root);
      }
    }
  }

  /** Adding Make targets never lowers the level the short form arrives at either. */
  lemma MoreTargetsNeverLowerDetermined(s: Standard, targets: set<string>, more: set<string>, files: Files)
    requires targets <= more
    ensures DeterminedLevel(s, targets, files) <= DeterminedLevel(s, more, files)
  {
    hide LevelHolds;
    forall l | l in s.levels ensures LevelHolds(s, targets, Some(files), l) ==> LevelHolds(s, more, Some(files), l) {
      if LevelHolds(s, targets, Some(files), l) {
        MoreTargetsKeepLevelHolds(s, targets, more, Some(files), l);
      }
    }
    MorePassesIsNoLower(s.levels, l => LevelHolds(s, targets, Some(files), l), l => LevelHolds(s, more, Some(files), l));
  }

  lemma HoldsIsAccepted(s: Standard, targets: set<string>, files: Files, aid: string)
    ensures AtomIdHolds(s, targets, Some(files), aid) ==> Accepted(s, Subject(PLAIN, targets, files), aid)
    ensures Accepted(s, Subject(PLAIN, targets, files), aid) ==>
              AtomIdHolds(s, targets, Some(files), aid) || ScopeOf(s, AtomsById(s)[aid].domain) == Organization
  {
    if aid in AtomsById(s) {
      var atom := AtomsById(s)[aid];
      PlainAtom(atom, ScopeOf(s, atom.domain), targets, files);
    }
  }

  lemma LevelHoldsIsPasses(s: Standard, targets: set<string>, files: Files, level: Level)
    requires LevelHolds(s, targets, Some(files), level)
    ensures LevelPasses(s, Subject(PLAIN, targets, files), level)
  {
    hide Required, AtomIdHolds, Accepted, FacetsById;
    forall fid | fid in level.facets && fid in FacetsById(s)
      ensures FacetPasses(s, Subject(PLAIN, targets, files), FacetsById(s)[fid])
    {
      assert FacetHolds(s, targets, Some(files), fid);
      forall aid | aid in Required(FacetsById(s)[fid], FacetsById(s), {}).value
        ensures Accepted(s, Subject(PLAIN, targets, files), aid)
      {
        HoldsIsAccepted(s, targets, files, aid);
      }
    }
  }

  /** Without configuration the short form never arrives higher than the full evaluation. */
  lemma DeterminedIsNoHigher(s: Standard, targets: set<string>, files: Files)
    ensures DeterminedLevel(s, targets, files) <= EvaluatedLevel(s, Subject(PLAIN, targets, files))
  {
    hide LevelHolds, LevelPasses;
    forall l | l in s.levels
      ensures LevelHolds(s, targets, Some(files), l) ==> LevelPasses(s, Subject(PLAIN, targets, files), l)
    {
      if LevelHolds(s, targets, Some(files), l) {
        LevelHoldsIsPasses(s, targets, files, l);
      }
    }
    MorePassesIsNoLower(s.levels, l => LevelHolds(s, targets, Some(files), l),
                        l => LevelPasses(s, Subject(PLAIN, targets, files), l));
  }

  /** Of what the level requires, everything exists, and what is organization-scoped holds. */
  predicate Grounded(s: Standard, targets: set<string>, files: Files, level: Level) {
    forall fid | fid in level.facets ::
      fid in FacetsById(s) &&
      var r := Required(FacetsById(s)[fid], FacetsById(s), {});
      r.Some? && forall aid | aid in r.value && aid in AtomsById(s) ::
        ScopeOf(s, AtomsById(s)[aid].domain) == Organization ==> AtomIdHolds(s, targets, Some(files), aid)
  }

  lemma PassesAndGroundedIsHolds(s: Standard, targets: set<string>, files: Files, level: Level)
    requires LevelPasses(s, Subject(PLAIN, targets, files), level)
    ensures LevelHolds(s, targets, Some(files), level) <==> Grounded(s, targets, files, level)
  {
    hide Required, AtomIdHolds, Accepted, FacetsById, AtomsById, ScopeOf;
    if Grounded(s, targets, files, level) {
      forall fid | fid in level.facets ensures FacetHolds(s, targets, Some(files), fid) {
        assert FacetPasses(s, Subject(PLAIN, targets, files), FacetsById(s)[fid]);
        forall aid | aid in Required(FacetsById(s)[fid], FacetsById(s), {}).value
          ensures AtomIdHolds(s, targets, Some(files), aid)
        {
          HoldsIsAccepted(s, targets, files, aid);
          AcceptedExists(s, Subject(PLAIN, targets, files), aid);
        }
      }
    }
    if LevelHolds(s, targets, Some(files), level) {
      assert forall fid | fid in level.facets :: FacetHolds(s, targets, Some(files), fid);
    }
  }

  lemma AcceptedExists(s: Standard, p: Subject, aid: string)
    ensures Accepted(s, p, aid) ==> aid in AtomsById(s)
  {}

  /** Without configuration the two forms arrive at the same level exactly when the full
      evaluation stays at the first level, or everything its level requires is declared and
      the organization-scoped part of it holds. */
  lemma TheTwoFormsAgreeIff(s: Standard, targets: set<string>, files: Files)
    ensures var e := EvaluatedLevel(s, Subject(PLAIN, targets, files));
      DeterminedLevel(s, targets, files) == e <==>
      e == 0 || Grounded(s, targets, files, s.levels[e])
  {
    hide LevelHolds, LevelPasses, Grounded;
    DeterminedIsNoHigher(s, targets, files);
    var e := EvaluatedLevel(s, Subject(PLAIN, targets, files));
    if e != 0 {
      PassesAndGroundedIsHolds(s, targets, files, s.levels[e]);
    }
  }

  /** Every facet a level names is declared, and no domain is organization-scoped. */
  predicate PlainStandard(s: Standard) {
    && (forall l | l in s.levels :: forall fid | fid in l.facets :: fid in FacetsById(s))
    && forall d | d in s.domains :: d.scope != Organization
  }

  lemma PlainIsGrounded(s: Standard, targets: set<string>, files: Files, level: Level)
    requires PlainStandard(s) && Resolves(s) && level in s.levels
    ensures Grounded(s, targets, files, level)
  {
    hide Required, AtomIdHolds, AtomsById, Resolves;
    ByIdMeaning(s.domains, (d: Domain) => d.id);
    forall fid | fid in level.facets ensures Required(FacetsById(s)[fid], FacetsById(s), {}).Some? {
      ResolvesById(s, fid);
    }
  }

  lemma TheTwoFormsAgree(s: Standard, targets: set<string>, files: Files)
    requires PlainStandard(s) && Resolves(s)
    ensures DeterminedLevel(s, targets, files) == EvaluatedLevel(s, Subject(PLAIN, targets, files))
  {
    hide PlainStandard, Resolves, Grounded, LevelPasses;
    TheTwoFormsAgreeIff(s, targets, files);
    var e := EvaluatedLevel(s, Subject(PLAIN, targets, files));
    if e != 0 {
      PlainIsGrounded(s, targets, files, s.levels[e]);
    }
  }

  /** A level that names an undeclared facet splits the two forms. */
  lemma UndeclaredFacetSplitsThem(targets: set<string>, files: Files)
    ensures var s := Standard([], [], [], [Level("L0", "Bootstrap", []), Level("L1", "Basic", ["ghost"])]);
      DeterminedLevel(s, targets, files) == 0 && EvaluatedLevel(s, Subject(PLAIN, targets, files)) == 1
  {
    var s := Standard([], [], [], [Level("L0", "Bootstrap", []), Level("L1", "Basic", ["ghost"])]);
    assert "ghost" in s.levels[1].facets && "ghost" !in FacetsById(s);
    assert !FacetHolds(s, targets, Some(files), "ghost");
    assert !LevelHolds(s, targets, Some(files), s.levels[1]);
    assert LevelPasses(s, Subject(PLAIN, targets, files), s.levels[1]);
    assert s.levels[..1] == [s.levels[0]];
  }

  // --- Endless composition -----------------------------------------------------------------------------

  /** Both forms come to an end when no facet lies on a cycle of compositions. */
  lemma AcyclicNeverFaults(s: Standard, targets: set<string>, root: Option<Files>)
    requires forall x :: x in FacetsById(s) ==> !OnCycle(Composition(FacetsById(s)), x)
    ensures Resolves(s)
    ensures forall l | l in s.levels :: !LevelFaults(s, targets, root, l)
  {
    hide OnCycle, Required, FacetsById;
    forall f: Facet ensures Required(f, FacetsById(s), {}).Some? {
      RequiredEndsIffAcyclic(f, FacetsById(s));
      assert forall x :: Below(f.composesFrom, FacetsById(s), x) ==> x in FacetsById(s);
    }
  }
}
