/** The delivery standard: rules that tell whether a capability (an atom) is present, facets
    that require atoms and compose from other facets, and levels that require facets. */
module Standards {
  import opened Outcomes
  import opened Digraphs
  import opened Sequences

  datatype Strategy = Make | Path | FileContent | Field

  /** An absent `file` or `path` is the empty string: the code only asks whether they are set. */
  datatype ResolveRule = ResolveRule(
    strategy: Strategy, anyOf: seq<string>, allOf: seq<string>, file: string, path: string)

  /** A directory as the rules see it. */
  datatype Files = Files(
    present: string -> bool,             // (root / p).exists()
    isFile: string -> bool,              // (root / p).is_file()
    field: (string, string) -> bool)     // the JSON file has a value at the dotted path

  datatype Scope = Service | Project | Organization
  datatype Domain = Domain(id: string, scope: Scope)
  datatype Atom = Atom(id: string, domain: string, resolve: seq<ResolveRule>)
  datatype AtomRef = AtomRef(ref: string, required: bool)
  datatype Facet = Facet(id: string, atoms: seq<AtomRef>, composesFrom: seq<string>)
  datatype Level = Level(id: string, name: string, facets: seq<string>)
  datatype Standard = Standard(domains: seq<Domain>, atoms: seq<Atom>, facets: seq<Facet>, levels: seq<Level>)

  datatype Fault = RecursionError

  // --- Rules and atoms ---------------------------------------------------------------------------

  /** The loop over the files of a `file-content` rule. */
  function FirstFile(targets: seq<string>, all: bool, isFile: string -> bool): bool {
    if targets == [] then false
    else if isFile(targets[0]) then true
    else if all then false
    else FirstFile(targets[1..], all, isFile)
  }

  predicate RuleHolds(rule: ResolveRule, targets: set<string>, root: Option<Files>) {
    match rule.strategy
    case Make =>
      if rule.anyOf != [] then exists t | t in rule.anyOf :: t in targets
      else rule.allOf != [] && forall t | t in rule.allOf :: t in targets
    case Path =>
      root.Some? &&
      (if rule.allOf != [] then forall p | p in rule.allOf :: root.value.present(p)
       else exists p | p in rule.anyOf :: root.value.present(p))
    case Field =>
      root.Some? && rule.file != "" && root.value.present(rule.file) && root.value.field(rule.file, rule.path)
    case FileContent =>
      root.Some? && FirstFile(if rule.allOf != [] then rule.allOf else rule.anyOf, rule.allOf != [], root.value.isFile)
  }

  predicate AtomHolds(atom: Atom, targets: set<string>, root: Option<Files>) {
    exists rule | rule in atom.resolve :: RuleHolds(rule, targets, root)
  }

  /** What a `make` rule asks for: some target of `any_of`, or else every target of `all_of`. */
  lemma MakeRuleMeaning(rule: ResolveRule, targets: set<string>, root: Option<Files>)
    requires rule.strategy == Make
    ensures rule.anyOf != [] ==> (RuleHolds(rule, targets, root) <==> Elements(rule.anyOf) * targets != {})
    ensures rule.anyOf == [] && rule.allOf != [] ==> (RuleHolds(rule, targets, root) <==> Elements(rule.allOf) <= targets)
    ensures rule.anyOf == [] && rule.allOf == [] ==> !RuleHolds(rule, targets, root)
  {
    if t :| t in rule.anyOf && t in targets {
      assert t in Elements(rule.anyOf) * targets;
    }
    if Elements(rule.allOf) <= targets {
      forall t | t in rule.allOf ensures t in targets {
        assert t in Elements(rule.allOf);
      }
    }
  }

  /** What a `path` rule asks for: that every path of `all_of` is there, or else some of `any_of`. */
  lemma PathRuleMeaning(rule: ResolveRule, targets: set<string>, files: Files)
    requires rule.strategy == Path
    ensures !RuleHolds(rule, targets, None)
    ensures rule.allOf != [] ==> (!RuleHolds(rule, targets, Some(files)) <==> exists p :: p in rule.allOf && !files.present(p))
    ensures rule.allOf == [] ==> (!RuleHolds(rule, targets, Some(files)) <==> forall p :: p in rule.anyOf ==> !files.present(p))
  {}

  /** What a `field` rule asks for: a file that is there and has a value at the dotted path. Without a
      directory no rule but a `make` rule holds. */
  lemma FieldRuleMeaning(rule: ResolveRule, targets: set<string>, files: Files)
    requires rule.strategy == Field
    ensures rule.file == "" || !files.present(rule.file) || !files.field(rule.file, rule.path) ==>
      !RuleHolds(rule, targets, Some(files))
    ensures RuleHolds(rule, targets, Some(files)) || rule.file == "" || !files.present(rule.file) ||
      !files.field(rule.file, rule.path)
    ensures !RuleHolds(rule, targets, None)
  {}

  lemma {:induction false} FirstFileMeaning(targets: seq<string>, isFile: string -> bool)
    ensures FirstFile(targets, false, isFile) <==> exists t | t in targets :: isFile(t)
    ensures FirstFile(targets, true, isFile) <==> targets != [] && isFile(targets[0])
  {
    if targets != [] {
      FirstFileMeaning(targets[1..], isFile);
    }
  }

  /** With `all_of`, a `file-content` rule looks at the first file only. */
  lemma FileContentAllOf(rule: ResolveRule, targets: set<string>, files: Files)
    requires rule.strategy == FileContent && rule.allOf != []
    ensures RuleHolds(rule, targets, Some(files)) <==> files.isFile(rule.allOf[0])
  {
    FirstFileMeaning(rule.allOf, files.isFile);
  }

  /** Without `all_of` it holds when some file of `any_of` is there. */
  lemma FileContentAnyOf(rule: ResolveRule, targets: set<string>, files: Files)
    requires rule.strategy == FileContent && rule.allOf == []
    ensures RuleHolds(rule, targets, Some(files)) <==> exists t :: t in rule.anyOf && files.isFile(t)
    ensures !RuleHolds(rule, targets, None)
  {
    FirstFileMeaning(rule.anyOf, files.isFile);
  }

  /** In this directory the rule means "all of these are files". */
  ghost predicate MeansAllOf(rule: ResolveRule, targets: set<string>, files: Files) {
    RuleHolds(rule, targets, Some(files)) <==> forall t | t in rule.allOf :: files.isFile(t)
  }

  /** A `file-content` rule with `all_of` means "all of these are files" in every directory
      exactly when it names a single file. */
  lemma FileContentMeansAllOfIff(rule: ResolveRule, targets: set<string>)
    requires rule.strategy == FileContent && rule.allOf != []
    ensures (forall files :: MeansAllOf(rule, targets, files)) <==> forall t | t in rule.allOf :: t == rule.allOf[0]
  {
    var first := rule.allOf[0];
    assert first in rule.allOf;
    forall files ensures RuleHolds(rule, targets, Some(files)) <==> files.isFile(first) {
      FileContentAllOf(rule, targets, files);
    }
    var onlyFirst := Files(x => true, x => x == first, (a, b) => true);
    if forall files :: MeansAllOf(rule, targets, files) {
      assert MeansAllOf(rule, targets, onlyFirst);
      assert forall t | t in rule.allOf :: onlyFirst.isFile(t);
    }
  }

  /** The rule holds although one of the two files it asks for is missing. */
  lemma SecondFileIsNotLookedAt(targets: set<string>)
    ensures var rule := ResolveRule(FileContent, [], ["a", "b"], "", "");
      var files := Files(x => x == "a", x => x == "a", (x, y) => false);
      RuleHolds(rule, targets, Some(files)) && "b" in rule.allOf && !files.isFile("b")
  {
    var rule := ResolveRule(FileContent, [], ["a", "b"], "", "");
    FileContentAllOf(rule, targets, Files(x => x == "a", x => x == "a", (x, y) => false));
  }

  /** More Make targets never make a rule fail. */
  lemma MoreTargetsKeepRule(rule: ResolveRule, targets: set<string>, more: set<string>, root: Option<Files>)
    requires targets <= more && RuleHolds(rule, targets, root)
    ensures RuleHolds(rule, more, root)
  {
    hide FirstFile;
  }

  // --- Lookups by id -----------------------------------------------------------------------------

  /** A dictionary built from a list: the last entry of an id wins. */
  function ById<T>(items: seq<T>, id: T -> string): map<string, T> {
    if items == [] then map[]
    else ById(items[..|items| - 1], id)[id(items[|items| - 1]) := items[|items| - 1]]
  }

  /** `x` has the id `k`, and no later entry does. */
  ghost predicate IsLastOf<T(!new)>(items: seq<T>, id: T -> string, k: string, x: T) {
    exists i :: 0 <= i < |items| && items[i] == x && id(x) == k && forall j | i < j < |items| :: id(items[j]) != k
  }

  lemma {:induction false} ByIdMeaning<T(!new)>(items: seq<T>, id: T -> string)
    ensures forall k :: k in ById(items, id) ==> ById(items, id)[k] in items && IsLastOf(items, id, k, ById(items, id)[k])
    ensures forall k :: k in ById(items, id) ==> id(ById(items, id)[k]) == k
    ensures forall x | x in items :: id(x) in ById(items, id)
  {
    if items != [] {
      var front, last := items[..|items| - 1], items[|items| - 1];
      assert items == front + [last];
      ByIdMeaning(front, id);
      forall k | k in ById(items, id) ensures IsLastOf(items, id, k, ById(items, id)[k]) {
        if k == id(last) {
          assert items[|front|] == last;
        } else {
          StillLastOf(front, last, id, k, ById(front, id)[k]);
        }
      }
    }
  }

  lemma StillLastOf<T(!new)>(items: seq<T>, last: T, id: T -> string, k: string, x: T)
    requires IsLastOf(items, id, k, x) && id(last) != k
    ensures IsLastOf(items + [last], id, k, x)
  {
    var i :| 0 <= i < |items| && items[i] == x && id(x) == k && forall j | i < j < |items| :: id(items[j]) != k;
    assert (items + [last])[i] == x;
  }

  function FacetsById(s: Standard): map<string, Facet> {
    ById(s.facets, (f: Facet) => f.id)
  }

  function AtomsById(s: Standard): map<string, Atom> {
    ById(s.atoms, (a: Atom) => a.id)
  }

  // --- Facet composition ---------------------------------------------------------------------------

  function Own(atoms: seq<AtomRef>): (r: seq<string>)
    ensures forall a :: a in r <==> exists x :: x in atoms && x.required && x.ref == a
  {
    if atoms == [] then []
    else
      var front, last := atoms[..|atoms| - 1], atoms[|atoms| - 1];
      assert atoms == front + [last];
      Own(front) + if last.required then [last.ref] else []
  }

  /** The references marked as required, in their order. */
  ghost predicate AreRequired(atoms: seq<AtomRef>, refs: seq<AtomRef>) {
    Selects(atoms, (x: AtomRef) => x.required, refs)
  }

  lemma {:induction false} OwnInOrder(atoms: seq<AtomRef>) returns (refs: seq<AtomRef>)
    ensures AreRequired(atoms, refs)
    ensures |refs| == |Own(atoms)| && forall i | 0 <= i < |refs| :: Own(atoms)[i] == refs[i].ref
  {
    var keep := (x: AtomRef) => x.required;
    if atoms == [] {
      refs := [];
      SelectsNothing(keep);
    } else {
      var front, last := atoms[..|atoms| - 1], atoms[|atoms| - 1];
      assert atoms == front + [last];
      refs := OwnInOrder(front);
      SelectsNext(front, last, keep, refs);
      refs := refs + if last.required then [last] else [];
    }
  }

  /** `resolve_required_atoms`, with the ids it is inside of. Python keeps no such set: a
      composition that comes back to an id it is inside of never returns, and None stands for
      the RecursionError this ends in. */
  function Required(f: Facet, byId: map<string, Facet>, path: set<string>): Option<seq<string>>
    decreases byId.Keys - path, 1, 0
  {
    match RequiredOfAll(f.composesFrom, byId, path)
    case None => None
    case Some(rest) => Some(Own(f.atoms) + rest)
  }

  function RequiredOfAll(ids: seq<string>, byId: map<string, Facet>, path: set<string>): Option<seq<string>>
    decreases byId.Keys - path, 0, |ids|
  {
    if ids == [] then Some([])
    else if ids[0] !in byId then RequiredOfAll(ids[1..], byId, path)
    else if ids[0] in path then None
    else
      assert ids[0] in byId.Keys - path;
      match Required(byId[ids[0]], byId, path + {ids[0]})
      case None => None
      case Some(first) =>
        match RequiredOfAll(ids[1..], byId, path)
        case None => None
        case Some(rest) => Some(first + rest)
  }

  /** The graph of composition. */
  function Composition(byId: map<string, Facet>): map<string, seq<string>> {
    map id | id in byId :: byId[id].composesFrom
  }

  /** `x` is composed into the list of facets `ids`, directly or through others. */
  ghost predicate Below(ids: seq<string>, byId: map<string, Facet>, x: string) {
    x in byId && exists c :: c in ids && Reach(Composition(byId), c, x)
  }

  /** Resolving stops at `id`: it is being resolved already, or resolving it does. */
  ghost predicate Stuck(id: string, byId: map<string, Facet>, path: set<string>) {
    id in byId && (id in path || Required(byId[id], byId, path + {id}).None?)
  }

  lemma {:induction false} StuckSomewhere(ids: seq<string>, byId: map<string, Facet>, path: set<string>)
    ensures RequiredOfAll(ids, byId, path).None? <==> exists id :: id in ids && Stuck(id, byId, path)
  {
    if ids != [] {
      StuckSomewhere(ids[1..], byId, path);
      assert Stuck(ids[0], byId, path) || !Stuck(ids[0], byId, path);
      assert forall id :: id in ids <==> id == ids[0] || id in ids[1..];
    }
  }

  /** The obstacle: a facet below that is being resolved already, or that lies on a cycle. */
  ghost predicate Obstacle(ids: seq<string>, byId: map<string, Facet>, path: set<string>, x: string) {
    Below(ids, byId, x) && (x in path || OnCycle(Composition(byId), x))
  }

  lemma {:induction false} NoneMeansObstacle(ids: seq<string>, byId: map<string, Facet>, path: set<string>) returns (x: string)
    requires RequiredOfAll(ids, byId, path).None?
    ensures Obstacle(ids, byId, path, x)
    decreases byId.Keys - path
  {
    hide Reach, OnCycle;
    StuckSomewhere(ids, byId, path);
    var c :| c in ids && Stuck(c, byId, path);
    ReachRefl(Composition(byId), c);
    x := c;
    if c !in path {
      assert c in byId.Keys - path;
      x := NoneMeansObstacle(byId[c].composesFrom, byId, path + {c});
      BelowSub(ids, byId, c, x);
    }
  }

  /** What is below a part is below the whole, and what is below itself is on a cycle. */
  lemma BelowSub(ids: seq<string>, byId: map<string, Facet>, c: string, x: string)
    requires c in ids && c in byId && Below(byId[c].composesFrom, byId, x)
    ensures Below(ids, byId, x)
    ensures x == c ==> OnCycle(Composition(byId), c)
  {
    var g := Composition(byId);
    var d :| d in byId[c].composesFrom && Reach(g, d, x);
    assert Edge(g, c, d);
    EdgeReach(g, c, d);
    ReachTrans(g, c, d, x);
  }

  lemma {:induction false} ObstacleMeansNone(ids: seq<string>, byId: map<string, Facet>, path: set<string>, x: string)
    requires Obstacle(ids, byId, path, x)
    ensures RequiredOfAll(ids, byId, path).None?
    decreases byId.Keys - path
  {
    hide Reach;
    var g := Composition(byId);
    var c :| c in ids && Reach(g, c, x);
    InDomain(byId, c, x);
    if c !in path {
      assert c in byId.Keys - path;
      ReachSplit(g, c, x);
      var d :| Edge(g, c, d) && Reach(g, d, x);
      assert Obstacle(byId[c].composesFrom, byId, path + {c}, x);
      ObstacleMeansNone(byId[c].composesFrom, byId, path + {c}, x);
    }
    assert Stuck(c, byId, path);
    StuckSomewhere(ids, byId, path);
  }

  lemma InDomain(byId: map<string, Facet>, c: string, x: string)
    requires x in byId && Reach(Composition(byId), c, x)
    ensures c in byId
  {
    ReachSplit(Composition(byId), c, x);
  }

  /** Resolving a facet comes to an end exactly when no facet composed into it lies on a cycle
      of compositions. */
  lemma RequiredEndsIffAcyclic(f: Facet, byId: map<string, Facet>)
    ensures Required(f, byId, {}).Some? <==>
            forall x :: Below(f.composesFrom, byId, x) ==> !OnCycle(Composition(byId), x)
  {
    hide Below, OnCycle;
    if Required(f, byId, {}).None? {
      var x := NoneMeansObstacle(f.composesFrom, byId, {});
    }
    if x :| Below(f.composesFrom, byId, x) && OnCycle(Composition(byId), x) {
      ObstacleMeansNone(f.composesFrom, byId, {}, x);
    }
  }

  /** Atom `a` is required by a facet below. */
  ghost predicate RequiredBelow(ids: seq<string>, byId: map<string, Facet>, a: string) {
    exists x :: Below(ids, byId, x) && a in Own(byId[x].atoms)
  }

  /** What one facet contributes: its own atoms, and those of what it composes from. */
  lemma OneContributes(c: string, byId: map<string, Facet>, a: string)
    requires c in byId
    ensures RequiredBelow([c], byId, a) <==> a in Own(byId[c].atoms) || RequiredBelow(byId[c].composesFrom, byId, a)
  {
    hide Reach;
    var g := Composition(byId);
    if x :| Below([c], byId, x) && a in Own(byId[x].atoms) {
      ReachSplit(g, c, x);
      if x != c {
        var d :| Edge(g, c, d) && Reach(g, d, x);
        assert Below(byId[c].composesFrom, byId, x);
      }
    }
    ReachRefl(g, c);
    if x :| Below(byId[c].composesFrom, byId, x) && a in Own(byId[x].atoms) {
      assert c in [c];
      BelowSub([c], byId, c, x);
    }
  }

  lemma ListContributes(ids: seq<string>, byId: map<string, Facet>, a: string)
    requires ids != []
    ensures RequiredBelow(ids, byId, a) <==> RequiredBelow([ids[0]], byId, a) || RequiredBelow(ids[1..], byId, a)
  {
    hide Reach, Own;
    assert forall c :: c in ids <==> c in [ids[0]] || c in ids[1..];
    assert forall x :: Below(ids, byId, x) <==> Below([ids[0]], byId, x) || Below(ids[1..], byId, x);
  }

  lemma DanglingContributesNothing(c: string, byId: map<string, Facet>, a: string)
    requires c !in byId
    ensures !RequiredBelow([c], byId, a)
  {
    if x :| Below([c], byId, x) && a in Own(byId[x].atoms) {
      InDomain(byId, c, x);
    }
  }

  lemma {:induction false} AllMeaning(ids: seq<string>, byId: map<string, Facet>, path: set<string>, a: string)
    requires RequiredOfAll(ids, byId, path).Some?
    ensures a in RequiredOfAll(ids, byId, path).value <==> RequiredBelow(ids, byId, a)
    decreases byId.Keys - path, |ids|
  {
    hide RequiredBelow, Own;
    if ids == [] {
      NothingBelowNothing(byId, a);
    } else {
      var c := ids[0];
      AllMeaning(ids[1..], byId, path, a);
      ListContributes(ids, byId, a);
      if c in byId {
        assert c in byId.Keys - path;
        AllMeaning(byId[c].composesFrom, byId, path + {c}, a);
        OneContributes(c, byId, a);
      } else {
        DanglingContributesNothing(c, byId, a);
      }
    }
  }

  lemma NothingBelowNothing(byId: map<string, Facet>, a: string)
    ensures !RequiredBelow([], byId, a)
  {}

  /** When resolving ends, a facet requires exactly the atoms that it, or a facet composed into
      it at any depth, marks as required. */
  lemma RequiredMeaning(f: Facet, byId: map<string, Facet>, a: string)
    requires Required(f, byId, {}).Some?
    ensures a in Required(f, byId, {}).value <==> a in Own(f.atoms) || RequiredBelow(f.composesFrom, byId, a)
  {
    AllMeaning(f.composesFrom, byId, {}, a);
  }

  // --- The order of what is required --------------------------------------------------------------

  /** What the facets require, one after the other, each resolved on its own. */
  ghost function Parts(ids: seq<string>, byId: map<string, Facet>): seq<string> {
    if ids == [] then []
    else (if ids[0] in byId then Required(byId[ids[0]], byId, {}).GetOr([]) else []) + Parts(ids[1..], byId)
  }

  /** Inside of fewer facets resolving ends all the more. */
  lemma SmallerPath(ids: seq<string>, byId: map<string, Facet>, path: set<string>, less: set<string>)
    requires RequiredOfAll(ids, byId, path).Some? && less <= path
    ensures RequiredOfAll(ids, byId, less).Some?
  {
    if RequiredOfAll(ids, byId, less).None? {
      var x := NoneMeansObstacle(ids, byId, less);
      ObstacleMeansNone(ids, byId, path, x);
    }
  }

  lemma {:induction false} PathDoesNotMatter(ids: seq<string>, byId: map<string, Facet>, path: set<string>, less: set<string>)
    requires RequiredOfAll(ids, byId, path).Some? && less <= path
    ensures RequiredOfAll(ids, byId, less) == RequiredOfAll(ids, byId, path)
    decreases byId.Keys - path, |ids|
  {
    SmallerPath(ids, byId, path, less);
    if ids != [] {
      PathDoesNotMatter(ids[1..], byId, path, less);
      var c := ids[0];
      if c in byId {
        assert c in byId.Keys - path;
        PathDoesNotMatter(byId[c].composesFrom, byId, path + {c}, less + {c});
      }
    }
  }

  lemma {:induction false} PartsOfAll(ids: seq<string>, byId: map<string, Facet>)
    requires RequiredOfAll(ids, byId, {}).Some?
    ensures RequiredOfAll(ids, byId, {}).value == Parts(ids, byId)
  {
    if ids != [] {
      PartsOfAll(ids[1..], byId);
      var c := ids[0];
      if c in byId {
        PathDoesNotMatter(byId[c].composesFrom, byId, {} + {c}, {});
      }
    }
  }

  /** A facet requires its own atoms, in their order, and then what the facets it composes from
      require, one after the other: as if nothing were known of where it is resolved. */
  lemma RequiredInOrder(f: Facet, byId: map<string, Facet>) returns (refs: seq<AtomRef>)
    requires Required(f, byId, {}).Some?
    ensures AreRequired(f.atoms, refs)
    ensures Required(f, byId, {}).value == Names(refs) + Parts(f.composesFrom, byId)
  {
    hide AreRequired;
    PartsOfAll(f.composesFrom, byId);
    refs := OwnInOrder(f.atoms);
    assert Own(f.atoms) == Names(refs);
  }

  ghost function Names(refs: seq<AtomRef>): seq<string> {
    seq(|refs|, i requires 0 <= i < |refs| => refs[i].ref)
  }

  // --- determine_level -----------------------------------------------------------------------------

  predicate AtomIdHolds(s: Standard, targets: set<string>, root: Option<Files>, aid: string) {
    aid in AtomsById(s) && AtomHolds(AtomsById(s)[aid], targets, root)
  }

  /** The facet exists, resolves, and every atom it requires holds. */
  predicate FacetHolds(s: Standard, targets: set<string>, root: Option<Files>, fid: string) {
    fid in FacetsById(s) &&
    var r := Required(FacetsById(s)[fid], FacetsById(s), {});
    r.Some? && forall aid | aid in r.value :: AtomIdHolds(s, targets, root, aid)
  }

  predicate LevelHolds(s: Standard, targets: set<string>, root: Option<Files>, level: Level) {
    forall fid | fid in level.facets :: FacetHolds(s, targets, root, fid)
  }

  /** The check of the level reaches a facet that never resolves. */
  ghost predicate LevelFaults(s: Standard, targets: set<string>, root: Option<Files>, level: Level) {
    exists i :: FaultsAt(s, targets, root, level, i)
  }

  ghost predicate FaultsAt(s: Standard, targets: set<string>, root: Option<Files>, level: Level, i: int) {
    && 0 <= i < |level.facets|
    && (forall j | 0 <= j < i :: FacetHolds(s, targets, root, level.facets[j]))
    && level.facets[i] in FacetsById(s) && Required(FacetsById(s)[level.facets[i]], FacetsById(s), {}).None?
  }

  /** `_check_level`. */
  method CheckLevel(s: Standard, level: Level, targets: set<string>, root: Option<Files>)
    returns (r: Result<bool, Fault>)
    ensures r.Err? <==> LevelFaults(s, targets, root, level)
    ensures r.Ok? ==> (r.value <==> LevelHolds(s, targets, root, level))
  {
    hide Required, AtomsById, FacetsById, AtomHolds;
    var facetsById := FacetsById(s);
    for i := 0 to |level.facets|
      invariant forall j | 0 <= j < i :: FacetHolds(s, targets, root, level.facets[j])
    {
      var fid := level.facets[i];
      if fid !in facetsById {
        assert !FacetHolds(s, targets, root, fid);
        return Ok(false);
      }
      var required := Required(facetsById[fid], facetsById, {});
      if required.None? {
        assert FaultsAt(s, targets, root, level, i);
        return Err(RecursionError);
      }
      for k := 0 to |required.value|
        invariant forall j | 0 <= j < k :: AtomIdHolds(s, targets, root, required.value[j])
      {
        var aid := required.value[k];
        if aid !in AtomsById(s) || !AtomHolds(AtomsById(s)[aid], targets, root) {
          assert !AtomIdHolds(s, targets, root, aid);
          assert !FacetHolds(s, targets, root, fid);
          return Ok(false);
        }
      }
    }
    return Ok(true);
  }

  /** The place of the last level that passes, or the first. */
  function LastPassing(levels: seq<Level>, passes: Level -> bool): (r: nat)
    ensures levels != [] ==> r < |levels| && (passes(levels[r]) || r == 0)
    ensures forall j | r < j < |levels| :: !passes(levels[j])
  {
    if levels == [] then 0
    else if passes(levels[|levels| - 1]) then |levels| - 1
    else LastPassing(levels[..|levels| - 1], passes)
  }

  const BOOTSTRAP := Level("L0", "Bootstrap", [])

  function LevelAt(levels: seq<Level>, i: nat): Level
    requires levels == [] || i < |levels|
  {
    if levels == [] then BOOTSTRAP else levels[i]
  }

  /** The last level that holds, or the first, or the level given to a standard without levels. */
  ghost predicate IsReached(s: Standard, targets: set<string>, root: Option<Files>, level: Level) {
    if s.levels == [] then level == Level("L0", "Bootstrap", [])
    else
      exists i :: 0 <= i < |s.levels| && s.levels[i] == level && (i > 0 ==> LevelHolds(s, targets, root, level))
                  && forall j | i < j < |s.levels| :: !LevelHolds(s, targets, root, s.levels[j])
  }

  /** A facet of the level requires the atom: it marks it itself, or a facet it is composed from does. */
  ghost predicate NeedsAtom(s: Standard, level: Level, aid: string) {
    exists fid, f :: fid in level.facets && IsLastOf(s.facets, (f: Facet) => f.id, fid, f) &&
      ((exists x :: x in f.atoms && x.required && x.ref == aid) || RequiredBelow(f.composesFrom, FacetsById(s), aid))
  }

  /** A `make` rule that asks for all of its targets, and one of them is missing. */
  ghost predicate LacksTarget(rule: ResolveRule, targets: set<string>) {
    rule.strategy == Make && rule.anyOf == [] && exists t :: t in rule.allOf && t !in targets
  }

  /** An atom that the level requires has no rule but such as lack a target. */
  ghost predicate IsObstructed(s: Standard, targets: set<string>, level: Level) {
    exists aid, atom :: NeedsAtom(s, level, aid) && IsLastOf(s.atoms, (a: Atom) => a.id, aid, atom) &&
      forall rule | rule in atom.resolve :: LacksTarget(rule, targets)
  }

  lemma LastIsOne<T(!new)>(items: seq<T>, id: T -> string, k: string, x: T, y: T)
    requires IsLastOf(items, id, k, x) && IsLastOf(items, id, k, y)
    ensures x == y && x in items
  {}

  lemma ObstructedFails(s: Standard, targets: set<string>, root: Option<Files>, level: Level)
    requires IsObstructed(s, targets, level)
    ensures !LevelHolds(s, targets, root, level)
  {
    hide Required, RequiredBelow, IsLastOf;
    var facetId, atomId := (f: Facet) => f.id, (a: Atom) => a.id;
    var aid, atom :| NeedsAtom(s, level, aid) && IsLastOf(s.atoms, atomId, aid, atom) &&
      forall rule | rule in atom.resolve :: LacksTarget(rule, targets);
    var fid, f :| fid in level.facets && IsLastOf(s.facets, facetId, fid, f) &&
      ((exists x :: x in f.atoms && x.required && x.ref == aid) || RequiredBelow(f.composesFrom, FacetsById(s), aid));
    ByIdMeaning(s.facets, facetId);
    ByIdMeaning(s.atoms, atomId);
    if FacetHolds(s, targets, root, fid) {
      LastIsOne(s.facets, facetId, fid, f, FacetsById(s)[fid]);
      RequiredMeaning(f, FacetsById(s), aid);
      assert AtomIdHolds(s, targets, root, aid);
      LastIsOne(s.atoms, atomId, aid, atom, AtomsById(s)[aid]);
      forall rule | rule in atom.resolve ensures !RuleHolds(rule, targets, root) {
        MakeRuleMeaning(rule, targets, root);
      }
    }
  }

  /** `determine_level`. */
  method DetermineLevel(s: Standard, targets: set<string>, root: Option<Files>) returns (r: Result<Level, Fault>)
    ensures r.Err? <==> exists l :: l in s.levels && LevelFaults(s, targets, root, l)
    ensures r.Ok? ==> r.value == LevelAt(s.levels, LastPassing(s.levels, l => LevelHolds(s, targets, root, l)))
    ensures r.Ok? ==> IsReached(s, targets, root, r.value)
    ensures r.Ok? && s.levels != [] && r.value != s.levels[0] ==> !IsObstructed(s, targets, r.value)
  {
    hide LevelHolds, LevelFaults, IsObstructed;
    ghost var passes := l => LevelHolds(s, targets, root, l);
    var achieved := LevelAt(s.levels, 0);
    for i := 0 to |s.levels|
      invariant forall j | 0 <= j < i :: !LevelFaults(s, targets, root, s.levels[j])
      invariant achieved == LevelAt(s.levels, LastPassing(s.levels[..i], passes))
    {
      assert s.levels[..i + 1][..i] == s.levels[..i];
      var ok := CheckLevel(s, s.levels[i], targets, root);
      if ok.Err? {
        return Err(RecursionError);
      }
      if ok.value {
        achieved := s.levels[i];
      }
    }
    assert s.levels[..|s.levels|] == s.levels;
    if IsObstructed(s, targets, achieved) {
      ObstructedFails(s, targets, root, achieved);
    }
    return Ok(achieved);
  }
}
