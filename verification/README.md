# Verified models of the ForkTex Python cores

This project models the algorithmic cores of the ForkTex Python repository in Dafny and proves what
they promise. Six groups of modules:

- **Graphs** (`Digraphs`, `Graphs`, `GraphModels`, `GraphLaws`, `Searches`, `Algebra`, `TarjanTheory`,
  `Cycles`, `Subgraphs`, `Ordering`, `Sequences`). The in-memory multigraph is a class with two public lists and a
  lazily built index. Every lookup is proved equal to a scan of the lists. On top of it stand the
  searches, shortest paths, Tarjan's strongly connected components, neighbourhoods, `merge` and
  `sorted`. Reachability, cycles and distance are defined once, by walks, in `Digraphs`.
- **Catalog** (`Catalogs`, `InfraClosure`). The cross-entity check, whose cycle search keeps no visited
  set and accepts only a start that returns itself, and the worklist over infra services.
- **Pagination** (`Keysets`, `Scrolls`, `OffsetPages`). The keyset condition in SQL's three-valued
  logic, scrolling as a protocol over a table that changes between requests, and offset pages whose
  count goes through a floating-point division.
- **Cache** (`Caches`, `CacheAges`, `CacheHits`, `RefreshStarts`, `CacheCalls`). A labelled step system: a clock, an expiring store entry, an
  expiring lock, calls and background refreshes in flight, with Redis failing before or after it
  applied a command. Time is in milliseconds; the code reads whole seconds. `CacheCalls` has the methods
  in their own order of statements and shows each to be a run of the step system, with arbitrary steps
  of everyone else at every await.
- **Overlay merge** (`Overlays`). The mutually recursive merge of JSON trees with keyed lists.
- **Delivery standard and path patterns** (`Standards`, `Evaluations`, `Matchers`). Two implementations
  of the level computation, and the `**` matcher.

Code that updates state in loops is a method or a class here, proved against a specification function
or predicate; code made of expressions is functions.

## What the proofs found

- **Catalog cycles** (`Catalogs.CycleReportedIffCyclic`). The cycle issue is reported exactly when a
  non-empty id lies on a cycle of declared dependencies. The code tests the truth of the returned id, so
  an extra with the empty id that depends on itself goes unreported (`Catalogs.EmptyIdHidesItsLoop`).
- **Overlay absorption** (`Overlays.DeepMergeAbsorbedIffStable`). Laying an overlay over twice equals once, on
  every base, exactly when records that share a key inside one keyed list are equal at all depths.
- **Overlay entries** (`Overlays.BaseFieldIsKept`). The documentation of `_overlay.py` says that an overlay
  entry replaces the base entry with its key. The code merges the two, and a field that only the base has
  is kept. The overlay replaces the base exactly when it covers it (`Overlays.ReplacesIffCovered`, for every
  base and overlay): no field of the base is missing, keyed lists have the keys of the base in place, and
  where the overlay list repeats a key its records are equal and stay so when said that many times.
- **Keyset condition** (`Keysets.PredicateSelects`). It selects exactly the rows that sort after the
  boundary, NULLs included, except that an ascending scroll drops a row whose tiebreaker is NULL and that
  agrees with the boundary elsewhere (`Keysets.NullTiebreakerIsLost`).
- **Stale reads** (`CacheAges.HitsAreNeverTooOld`). The age of a served entry is bounded by `stale_ttl` plus
  the time from its stamp to its write, and the bound is reached (`CacheAges.SlowMissReachesTheBound`),
  because a miss is stamped before the function runs. `docs/cache.md` says that a value older than `ttl` is
  served for `stale_ttl` seconds; in the code an entry is served until `stale_ttl` after its write and not
  longer (`CacheAges.ServedForStaleTtl`, `CacheAges.HitsEndAtStaleTtl`). The documented promise holds on every run if
  and only if `ttl` is not positive, or `stale_ttl` is at most 1, or the function's answer does not read back
  (`CacheAges.ServedAsDocumentedIff`); under all other settings `CacheAges.StaleValueIsGoneEarly` has a run in which
  a value is gone too early although nothing dropped it.
- **Refresh starts** (`RefreshStarts.StartsSpacedIff`). The lock grants are `LOCK_TTL` apart, but a refresh starts
  once the reply to its lock is in. If replies take up to R, any two starts are `LOCK_TTL` less R apart
  (`RefreshStarts.StartsNearlySpaced`). They are always `LOCK_TTL` apart if and only if R is zero or the settings let
  no refresh start at all; `RefreshStarts.SlowReplyStartsSooner` has the runs, one of which starts two refreshes at
  the same moment.
- **Page count** (`OffsetPages.RightIffUpToTwoTo53`). The float ceiling is right for every total up to a bound
  if and only if the bound is at most 2^53.
- **Levels** (`Evaluations.TheTwoFormsAgree`). Without configuration `determine_level` and `evaluate` arrive
  at the same level when no domain is organization-scoped, every facet a level names is declared, and
  every facet resolves: conditions on the standard alone, for every project. A level that names an
  undeclared facet splits them, and `determine_level` never arrives higher. For one given evaluation
  `Evaluations.TheTwoFormsAgreeIff` says exactly when they differ, in terms of the level it reports.
- **`file-content` rules** (`Standards.FileContentMeansAllOfIff`). With `all_of` only the first file is looked
  at: the rule means "all of these" in every directory exactly when it names a single file
  (`Standards.SecondFileIsNotLookedAt` has a directory where it goes wrong).

## Model

| member | source | states |
|---|---|---|
| Graphs.NeighborsMeaning | backlog/facades/graph/models.py:155-178 | a node is a neighbour exactly when it is known and some stored edge of the kind links the two in the direction asked for |
| Graphs.FirstOfEachIdMeaning | backlog/facades/graph/models.py:169-177 | looking both ways drops repeated ids and nothing else |
| Graphs.AdjacencyMeaning | backlog/facades/graph/models.py:155-178 | an edge of the graph the algorithms walk is a stored edge between two known nodes, and every such stored edge is one |
| Graphs.NodeMapMeaning | backlog/facades/graph/models.py:128-135 | the lookup by id has every known id, and of two nodes with one id the later |
| Graphs.OutEdgesMeaning | backlog/facades/graph/models.py:145-148 | the outgoing edges are the stored edges with this source and kind, at increasing positions of the list, each once |
| Graphs.InEdgesMeaning | backlog/facades/graph/models.py:150-153 | the same for the incoming edges |
| Graphs.NeighborsInOrder | backlog/facades/graph/models.py:155-178 | the neighbours are the far ends of those edges in their order, dangling ends passed over; looking both ways the first node of each id, outgoing before incoming |
| Graphs.OutwardInwardDuality | backlog/facades/graph/algebra.py:35-88 | b is found searching outward from a exactly when a is found searching inward from b |
| GraphModels.IndexOfCovers | backlog/facades/graph/models.py:120-135 | the index a full build produces answers every lookup as a scan of the two lists does, order included, duplicate ids and dangling edges included |
| GraphModels.Graph.constructor | backlog/facades/graph/models.py:74-85 | a graph holds the lists it is given and has no index yet |
| GraphModels.Graph.EnsureIndex | backlog/facades/graph/models.py:120-135 | afterwards the index is built and agrees with the lists; the lists are not touched |
| GraphModels.Graph.AddNode | backlog/facades/graph/models.py:87-95 | the node is appended unless a node of its id is there, in which case the lists stay as they are and the last node of that id is returned; the index stays in step |
| GraphModels.Graph.AddEdge | backlog/facades/graph/models.py:97-118 | an unknown source fails first, then an unknown target, and nothing changes; an edge whose derived id is taken returns the first edge of that id; otherwise an edge with exactly the given kind, ends and attributes is appended and returned |
| GraphModels.Graph.HasNode | backlog/facades/graph/models.py:141-143 | true exactly when a scan of the nodes finds the id |
| GraphModels.Graph.OutEdges | backlog/facades/graph/models.py:145-148 | the stored edges with this source and kind, in stored order, each once |
| GraphModels.Graph.InEdges | backlog/facades/graph/models.py:150-153 | the stored edges with this target and kind, in stored order, each once |
| GraphModels.Graph.NeighborNodes | backlog/facades/graph/models.py:155-178 | the far ends of those edges edge by edge, dangling ends skipped, duplicates dropped only for `both`; an unknown direction is an error |
| GraphModels.Graph.Merge | backlog/facades/graph/models.py:195-200 | inserts nodes, then edges under fresh ids, up to the first dangling edge; also when a graph is merged into itself and its lists grow while they are walked |
| GraphModels.Sorted | backlog/facades/graph/models.py:186-193 | a new graph with the same meta and the same nodes and edges, node ids ascending by code point, edges ascending by kind, then source, target and id; the given graph is unchanged |
| GraphModels.FromIterables | backlog/facades/graph/models.py:206-219 | the insertion of the nodes and then the edges into an empty graph |
| Ordering.SortMeaning | backlog/facades/graph/models.py:186-193 | the sort is a permutation, ordered by key, and stable |
| Ordering.StringLessMeaning | backlog/facades/graph/models.py:186-193 | strings compare by code point where they first differ, a prefix before what it starts |
| GraphModels.SortedAscends | backlog/facades/graph/models.py:186-193 | `sorted` ascends: nodes by id, edges by kind, source, target and id |
| GraphLaws.GrownFromEmpty | backlog/facades/graph/models.py:87-118 | after any sequence of calls on a graph that starts empty: unique node ids, unique edge ids, no dangling edge, every edge under its derived id |
| GraphLaws.SortedIsCanonical | backlog/facades/graph/models.py:186-193 | two grown graphs with the same nodes and edges sort to equal lists |
| GraphLaws.SortedKeepsContents | backlog/facades/graph/models.py:186-193 | sorting loses and invents nothing, so the canonical form also separates graphs |
| GraphLaws.MergeContents | backlog/facades/graph/models.py:195-200 | merging grown graphs that agree on shared ids succeeds and has exactly what either had |
| GraphLaws.MergeCommutes | backlog/facades/graph/models.py:186-200 | for such graphs a.merge(b) and b.merge(a) agree after `sorted` |
| GraphLaws.MergeTwice | backlog/facades/graph/models.py:195-200 | merging the same graph again changes nothing |
| Searches.BfsOrderMeaning | backlog/facades/graph/algebra.py:35-54 | breadth-first order starts at the start, lists exactly the reachable nodes once each, never lists a node before a nearer one, and goes on at every place with the first new neighbour of the earliest node that has one |
| Searches.DfsOrderMeaning | backlog/facades/graph/algebra.py:57-78 | pre-order starts at the start, lists exactly the reachable nodes once each, and goes on at every place with the first new neighbour of the latest node that has one |
| Searches.PreorderSplit | backlog/facades/graph/algebra.py:69-75 | a walk over two lists is the walk over the first and then over the second with what the first visited |
| Algebra.Bfs | backlog/facades/graph/algebra.py:35-54 | returns that order; empty for an unknown start; an unknown direction is an error |
| Algebra.DepthFirst.Walk | backlog/facades/graph/algebra.py:69-75 | the recursive closure appends the pre-order of what it has not visited, and terminates |
| Algebra.Dfs | backlog/facades/graph/algebra.py:57-78 | returns the pre-order; empty for an unknown start |
| Algebra.TransitiveClosure | backlog/facades/graph/algebra.py:81-88 | exactly the reachable nodes |
| Algebra.SearchRound | backlog/facades/graph/algebra.py:107-117 | one round of the search keeps distances and parents right, and stops exactly on the target |
| Algebra.WalkBack | backlog/facades/graph/algebra.py:120-123 | following parents back from the target ends at the source and yields a shortest walk |
| Algebra.ShortestPath | backlog/facades/graph/algebra.py:91-123 | a real path of least length in the chosen kind and direction; None exactly when an end is unknown or the target unreachable |
| TarjanTheory.EnterKeeps | backlog/facades/graph/algebra.py:142-147 | numbering and pushing a node keeps the invariant of stack, numbers and components |
| TarjanTheory.LeaveKeeps | backlog/facades/graph/algebra.py:148-154 | leaving a node that reaches below itself on the stack keeps the invariant |
| TarjanTheory.SegmentIsScc | backlog/facades/graph/algebra.py:154-162 | when lowlink equals index, the top of the stack from the node on is a whole strongly connected component |
| TarjanTheory.PopKeeps | backlog/facades/graph/algebra.py:154-162 | popping that component keeps the invariant |
| TarjanTheory.CyclicOfMeaning | backlog/facades/graph/algebra.py:168-176 | of all components, those of two or more and the self-loops hold exactly the nodes on cycles |
| TarjanTheory.CyclicSinksFirst | backlog/facades/graph/algebra.py:168-176 | keeping only the cyclic components keeps them in reverse topological order |
| Cycles.StronglyConnected.Successors | backlog/facades/graph/algebra.py:132-133 | the known targets of the outgoing edges, in order |
| Cycles.StronglyConnected.PopComponent | backlog/facades/graph/algebra.py:155-161 | pops down to and including the node, in stack order, and terminates |
| Cycles.StronglyConnected.LookAt | backlog/facades/graph/algebra.py:148-153 | a successor met for the first time, on the stack or finished keeps what is known of the running call |
| Cycles.StronglyConnected.Finish | backlog/facades/graph/algebra.py:154-162 | after its successors a node closes a component or stays on the stack |
| Cycles.StronglyConnected.StrongConnect | backlog/facades/graph/algebra.py:142-162 | keeps the invariant, finishes or leaves open exactly what the node's lowlink says, and terminates |
| Cycles.Cycles | backlog/facades/graph/algebra.py:126-176 | whole strongly connected components, no node twice, together exactly the nodes that lie on a cycle, and in reverse topological order: none leads to a later one |
| Subgraphs.InducedMeaning | backlog/facades/graph/subgraph.py:34-40 | keeps the known nodes asked for and the edges with both ends kept |
| Subgraphs.InducedInOrder | backlog/facades/graph/subgraph.py:34-40 | the kept nodes and edges stand at increasing positions of the stored lists, each once |
| Subgraphs.InducedSubgraph | backlog/facades/graph/subgraph.py:34-40 | returns a new graph with the nodes asked for and the edges with both ends kept, in stored order, each once, and leaves the given one unchanged |
| Subgraphs.NextFrontier | backlog/facades/graph/subgraph.py:61-65 | the successors of the frontier that are not kept yet |
| Subgraphs.Layers | backlog/facades/graph/subgraph.py:58-69 | after the loop, early exit included, exactly the nodes within the depth are kept |
| Subgraphs.SubgraphAround | backlog/facades/graph/subgraph.py:43-70 | the nodes within the depth and the edges with both ends within it, in stored order; empty for an unknown start; an unknown direction is an error only when the loop is entered |
| Subgraphs.AroundMeaning | backlog/facades/graph/subgraph.py:43-70 | exactly the nodes at distance at most the depth and exactly the edges with both ends kept |
| Subgraphs.AroundInOrder | backlog/facades/graph/subgraph.py:43-70 | they stand at increasing positions of the stored lists, each once |
| Subgraphs.AroundIsClosure | backlog/facades/graph/subgraph.py:43-70 | with a depth of at least the node count it is the subgraph induced by the transitive closure |
| Catalogs.SomeStartReturnsItself | backlog/core/catalog/loader.py:124-138 | some declared non-empty id is returned by the search from it exactly when a non-empty id lies on a cycle |
| Catalogs.ReportIsReached | backlog/core/catalog/loader.py:124-132 | what a search reports is reached from its start, and is on its stack or on a cycle |
| Catalogs.SilentMeansSafe | backlog/core/catalog/loader.py:124-132 | without an empty id, a search that reports nothing has no cycle and nothing of its stack in reach |
| Catalogs.SameReport | backlog/core/catalog/loader.py:124-132 | a report stays the same on a smaller stack that still holds it, if both stacks or neither hold the empty id |
| Catalogs.Caught | backlog/core/catalog/loader.py:124-132 | without an empty id, a search whose loop runs through another stack reports something of that stack when it runs on it |
| Catalogs.CheckLevels | backlog/core/catalog/loader.py:90-100 | the issues are exactly the undeclared and the wrongly placed extras of the levels |
| Catalogs.CheckReferences | backlog/core/catalog/loader.py:102-112 | the issues are exactly the undeclared ids in `depends_on`, `lazy_imports` and `optional_for_consumer`, each under its field |
| Catalogs.CheckRelations | backlog/core/catalog/loader.py:114-119 | the issues are exactly the relations with an undeclared end |
| Catalogs.CheckCycles | backlog/core/catalog/loader.py:134-138 | at most one issue, for the first extra that its own search returns |
| Catalogs.CheckFlow | backlog/core/catalog/loader.py:140-149 | the issues are exactly the dependencies on a higher level |
| Catalogs.LevelOfMeaning | backlog/core/catalog/loader.py:87-88 | the ids of the catalog are those of its extras, and the level of an id is that of the last extra with it |
| Catalogs.CycleReportedIffCyclic | backlog/core/catalog/loader.py:121-138 | a cycle is reported exactly when a non-empty id lies on a cycle of declared dependencies, whatever order the dependency sets are walked in |
| Catalogs.CycleReportIsTrue | backlog/core/catalog/loader.py:134-138 | the reported id lies on a cycle |
| Catalogs.EmptyIdHidesItsLoop | backlog/core/catalog/loader.py:128-137 | an empty id that depends on itself is a cycle, and no id is reported |
| Catalogs.CrossValidate | backlog/core/catalog/loader.py:85-151 | complains of exactly what the records warrant, field by field: undeclared and misplaced extras of levels, undeclared references in each of the three fields, unknown ends of relations, dependencies on a higher level; of a cycle at most once and exactly when a non-empty id lies on one |
| Catalogs.CleanMeansLayered | backlog/core/catalog/loader.py:85-151 | in a catalog without issues every chain of dependencies is declared, never rises in level and repeats no non-empty id; a chain without the empty id is no longer than the number of extras |
| InfraClosure.ServiceMeaning | backlog/core/catalog/render.py:283-306 | the first extra of an id gives its dependencies and its service, an empty service counting as none |
| InfraClosure.InfraServicesFor | backlog/core/catalog/render.py:283-306 | terminates on every catalog and returns exactly the non-empty `infra_required` of the extras that the seeds reach over `depends_on`, the first extra of an id counting |
| Keysets.KeysetPredicate | src/forktex/database/pagination.py:63-82 | the OR of the levels' conditions; an error for no levels, and when no level has a condition |
| Keysets.BeforeIsOrder | src/forktex/database/pagination.py:85-95 | the order of rows, NULL last ascending and first descending, is a strict total order |
| Keysets.PredicateSelects | src/forktex/database/pagination.py:63-95 | for any number of levels and any NULLs the condition is true exactly for the rows sorting after the boundary, save the dropped kind |
| Keysets.PredicateIsOrder | src/forktex/database/pagination.py:63-95 | on rows whose tiebreaker is not NULL the condition is strict lexicographic order; with no condition no such row is after |
| Keysets.NoConditionIffAllNull | src/forktex/database/pagination.py:74-81 | no condition can be built exactly when the boundary is all NULL and ascending |
| Keysets.NullTiebreakerIsLost | src/forktex/database/pagination.py:93-94 | a row with a NULL tiebreaker that an ascending scroll loses |
| Scrolls.PaginateScrollQuery | src/forktex/database/crud.py:248-281 | fetches one row too many, cuts it off, and hands out the last row's keyset; a NULL tiebreaker there is an error; the limit is the one asked for, or 20 when that is below 1, no page is longer, and there is more exactly when more rows than that are left |
| Scrolls.PaginateScroll | src/forktex/database/crud.py:180-213 | on any table the first rows, up to the limit asked for or 20 when that is below 1, of the ordered list of rows that the condition lets through, each as often as it is there, or the tiebreaker error; with a unique keyset and no NULL tiebreaker, the next rows after the cursor, whether there are more, and where they start; the argument errors; without a keyset the first rows as they come |
| Scrolls.NextCursorIsAccepted | src/forktex/database/crud.py:266-285 | a cursor that was handed out is valid in the next request |
| Scrolls.CollectedIncreases | src/forktex/database/crud.py:180-213 | with any changes between requests, following the cursor yields strictly increasing keys |
| Scrolls.IncreasingHasNoDuplicates | src/forktex/database/crud.py:180-213 | so no row comes out twice |
| Scrolls.CollectedWasThere | src/forktex/database/crud.py:180-213 | every row that comes out was in the table when its page was read |
| Scrolls.PresentThroughoutIsCollected | src/forktex/database/crud.py:180-213 | every row present at every request comes out |
| Scrolls.FixedTable | src/forktex/database/crud.py:248-281 | on a table that does not change a finished scroll took max(1, ceil(n/limit)) requests and collected the whole table |
| Scrolls.RunExists | src/forktex/database/crud.py:248-281 | on such a table the scroll does finish, after that many requests |
| OffsetPages.FloatCeiling | src/forktex/database/crud.py:236 | under round-to-nearest the float ceiling of total/page_size is the integer ceiling for every total up to 2^53 |
| OffsetPages.WrongBeyondTwoTo53 | src/forktex/database/crud.py:236 | one above 2^53 the page count is wrong |
| OffsetPages.RightIffUpToTwoTo53 | src/forktex/database/crud.py:236 | the page count is right for every total up to t and every page size if and only if t is at most 2^53 |
| OffsetPages.PaginateQuery | src/forktex/database/crud.py:216-245 | the rows of the page asked for, page 1 when that is below 1 and 100 rows a page when the size is; the totals; `has_more` exactly when the page is below the number of pages |
| OffsetPages.AllPagesAreTheResult | src/forktex/database/crud.py:230-236 | pages 1 to `total_pages` put end to end are the whole result |
| Caches.EveryAnswerIsTheFunctions | src/forktex/cache/cache.py:109-181 | every value a call returns, under any interleaving, expiry, invalidation, undecodable entry or Redis failure, is deserialize(serialize(fn(args))) |
| Caches.AlwaysTransparent | src/forktex/cache/cache.py:109-181 | at every moment whatever the store holds and every call carries decodes to that value |
| Caches.OnlyTheFunctionRaises | src/forktex/cache/cache.py:69-90 | no call raises while the function succeeds and its answer reads back |
| Caches.GrantsAreSpaced | src/forktex/cache/cache.py:164-168 | any two grants of the refresh lock are LOCK_TTL apart, across all clients |
| Caches.RefreshesAreSpaced | src/forktex/cache/cache.py:164-181 | any two background refreshes of a key start LOCK_TTL apart, but for what the earlier waited longer than the later for the reply to its lock |
| RefreshStarts.StartsNearlySpaced | src/forktex/cache/cache.py:164-181 | if no reply to a lock takes longer than R, any two starts are LOCK_TTL less R apart |
| RefreshStarts.SlowReplyStartsSooner | src/forktex/cache/cache.py:164-181 | under all settings that let a refresh start, a run of two calls in which a reply of R brings two starts nearer by R, down to the same moment |
| RefreshStarts.StartsSpacedIff | src/forktex/cache/cache.py:164-181 | with replies of up to R, starts are LOCK_TTL apart on every run if and only if R is zero or no refresh can start |
| Caches.LockIsAskedForByOldHits | src/forktex/cache/cache.py:152-157 | a call that has returned asked for the lock exactly when it was served an entry older than ttl |
| Caches.FewRefreshesAtOnce | src/forktex/cache/cache.py:164-181 | if each in flight, reply to its own write included, has run for at most D and started within R of its lock, at most floor((D+R)/LOCK_TTL)+1 are in flight |
| CacheAges.HitsAreNeverTooOld | src/forktex/cache/cache.py:131-181 | a hit is never older than stale_ttl plus its writer's delay from stamp to store, which includes the function only for a miss |
| CacheAges.SlowMissReachesTheBound | src/forktex/cache/cache.py:141-162 | a run in which that bound is reached |
| CacheAges.HitsEndAtStaleTtl | src/forktex/cache/cache.py:78-84 | on every run a hit was read less than stale_ttl after its entry was written |
| CacheAges.ServedForStaleTtl | src/forktex/cache/cache.py:141-162 | an entry of the cache is served to whoever reads it until stale_ttl after its write; after that the call goes to the function |
| CacheAges.StaleValueIsGoneEarly | src/forktex/cache/cache.py:141-161 | for every ttl above 0 and stale_ttl above 1, a run in which a value past ttl by less than stale_ttl is gone with nothing dropped, and the call goes to the function |
| CacheAges.ServedAsDocumentedIff | src/forktex/cache/cache.py:141-162 | a value past ttl stays served for stale_ttl seconds more, on every run, if and only if ttl is not positive, stale_ttl at most 1, or no answer reads back |
| CacheHits.StoreKeeps | src/forktex/cache/cache.py:78-84 | the SET of a miss stores the answer for ttl seconds, or the stamped answer for stale_ttl, counted from now, unless that is not positive or Redis refuses |
| CacheHits.RefreshKeeps | src/forktex/cache/cache.py:170-174 | the SET of a refresh does the same with the stamp taken after its function answered |
| CacheHits.InvalidateEmpties | src/forktex/cache/cache.py:122-124 | an entry that does not decode is deleted unless Redis refuses |
| CacheHits.NothingIsMissed | src/forktex/cache/cache.py:69-76 | a call that reads after an invalidation, or whose GET fails, goes to the function |
| CacheHits.ForeignIsInvalidated | src/forktex/cache/cache.py:118-124 | a call that reads what does not decode asks for its deletion |
| CacheHits.PlainServedForTtl | src/forktex/cache/cache.py:118-129 | with plain caching an entry is returned without the function to whoever reads it until ttl after its write; after that the call goes to the function |
| CacheHits.SecondCallIsServed | src/forktex/cache/cache.py:109-129 | a call within ttl of a first one has its answer, whatever the function would do; a later call goes to the function |
| CacheHits.LockIsHeldTenSeconds | src/forktex/cache/cache.py:164-168 | of two calls that ask for a free lock the second gets it too exactly when Redis refused the first or it asks ten seconds later or more |
| CacheCalls.Cache.Look | src/forktex/cache/cache.py:141-142 | the GET comes back with the entry that has not expired, or nothing, and the clock reading takes the call where the step system says |
| CacheCalls.Cache.Compute | src/forktex/cache/cache.py:126-129 | the miss path is a run of the step system, returns the serialized answer read back, and raises only with the function |
| CacheCalls.Cache.FetchOrSet | src/forktex/cache/cache.py:109-129 | the method is a run of the step system; an entry that its GET finds and that decodes is returned and nothing else is asked of Redis or the function; otherwise its commands are, in this order, a DELETE if there was an entry, the function, and the SET if that succeeds, and it returns the function's answer |
| CacheCalls.Cache.RefreshInBackground | src/forktex/cache/cache.py:164-181 | asking for the lock and hearing of it leads from the decision to the answer, whatever Redis replies |
| CacheCalls.Cache.FetchSwr | src/forktex/cache/cache.py:131-162 | likewise with stamped entries; after a hit the lock is asked for, and nothing else, exactly when the hit is older than ttl |
| CacheCalls.Cache.Refresh | src/forktex/cache/cache.py:170-178 | a background refresh ends with its write or with the function's failure and leaves nothing behind |
| Overlays.DeepMerge | backlog/py/manifest/_overlay.py:46-55 | keys of either side; a key of one side keeps its value; under a key of both: objects merge in the same way, a list gives way to a non-empty one and stays under an empty one, lists with an item that has no id or name are replaced whole, keyed lists merge by key, and anything else is replaced |
| Overlays.MergeValues | backlog/py/manifest/_overlay.py:58-63 | the same for two values, at all depths |
| Overlays.MergeLists | backlog/py/manifest/_overlay.py:76-103 | keyed lists merge record by record in the base's order with new records appended; others are replaced whole, empty ones give way |
| Overlays.MergeMeaning | backlog/py/manifest/_overlay.py:46-103 | the merge obeys these rules at all depths, for all values |
| Overlays.RecordKeyMeaning | backlog/py/manifest/_overlay.py:66-73 | a record has a key exactly when its id or name is a non-empty text; two records share one exactly when their ids agree, or both have none and their names agree |
| Overlays.MergedListMeaning | backlog/py/manifest/_overlay.py:86-103 | a keyed merge has the base's keys in place, repeated ones included, then the overlay's new keys once each; under a key stands the base's last record with all the overlay's merged into it in order |
| Overlays.MergedOfDistinct | backlog/py/manifest/_overlay.py:86-103 | when neither list repeats a key, a record of both is the merge of the two and a record of the base alone is unchanged |
| Overlays.ReplacesIffCovered | backlog/py/manifest/_overlay.py:46-103 | for every base and overlay, merging gives back the overlay exactly when it covers the base at all depths |
| Overlays.SaidReplacesIffCovered | backlog/py/manifest/_overlay.py:46-103 | the same for an overlay laid over any number of times, on a base that may be missing |
| Overlays.BaseFieldIsKept | backlog/py/manifest/_overlay.py:92-97 | an overlay entry that does not replace the base entry of its key |
| Overlays.MergeKeepsKey | backlog/py/manifest/_overlay.py:66-73 | a record merged with one of the same key keeps that key |
| Overlays.SelfMerge | backlog/py/manifest/_overlay.py:46-103 | a stable overlay merged with itself is itself |
| Overlays.Absorption | backlog/py/manifest/_overlay.py:46-103 | for every base, laying a stable overlay over twice is the same as once |
| Overlays.ReturningIsStable | backlog/py/manifest/_overlay.py:46-103 | an overlay that comes back after any number of self-merges is stable |
| Overlays.AbsorbedIffStable | backlog/py/manifest/_overlay.py:46-103 | an overlay is absorbed by every base if and only if it is stable |
| Overlays.DeepMergeAbsorbedIffStable | backlog/py/manifest/_overlay.py:46-55 | the same for `deep_merge` on objects, over all base objects |
| Overlays.DistinctIsStable | backlog/py/manifest/_overlay.py:76-103 | overlays whose keyed lists have distinct keys at all depths are stable |
| Overlays.DuplicatesAreNotAbsorbed | backlog/py/manifest/_overlay.py:92-102 | an overlay object with two different records under one key that `deep_merge` does not absorb |
| Standards.FirstFileMeaning | backlog/py/fsd/models.py:108-119 | with `any_of` some file exists, with `all_of` the first one does |
| Standards.FileContentAllOf | backlog/py/fsd/models.py:108-119 | a `file-content` rule with `all_of` holds exactly when the first entry is a file |
| Standards.FileContentMeansAllOfIff | backlog/py/fsd/models.py:108-119 | such a rule means all of its files in every directory if and only if it names a single file |
| Standards.SecondFileIsNotLookedAt | backlog/py/fsd/models.py:108-119 | a rule that holds although its second file is missing |
| Standards.MakeRuleMeaning | backlog/py/fsd/models.py:82-87 | a `make` rule asks for some target of `any_of`, or without one for every target of `all_of`, and never holds when both are empty |
| Standards.PathRuleMeaning | backlog/py/fsd/models.py:89-94 | a `path` rule with `all_of` fails exactly when one path is missing, otherwise exactly when all of `any_of` are; without a directory it fails |
| Standards.FieldRuleMeaning | backlog/py/fsd/models.py:96-106 | a `field` rule holds exactly when it names a file that is there and has a value at the dotted path |
| Standards.FileContentAnyOf | backlog/py/fsd/models.py:108-119 | a `file-content` rule without `all_of` holds exactly when some file of `any_of` is there |
| Standards.ByIdMeaning | backlog/py/fsd/models.py:240-252 | a lookup by id has every id, and of two entries with one id the later |
| Standards.MoreTargetsKeepRule | backlog/py/fsd/models.py:72-87 | more Make targets never make a rule fail |
| Standards.RequiredEndsIffAcyclic | backlog/py/fsd/models.py:209-215 | resolving a facet ends exactly when nothing composed into it lies on a cycle of compositions |
| Standards.RequiredMeaning | backlog/py/fsd/models.py:209-215 | it yields exactly the atoms that the facet, or one composed into it at any depth, marks as required |
| Standards.OwnInOrder | backlog/py/fsd/models.py:209-215 | a facet's own required atoms, in the order of its references, each as often as it is there |
| Standards.RequiredInOrder | backlog/py/fsd/models.py:209-215 | these come first, and then what the facets it composes from require, one after the other, each as if resolved on its own |
| Standards.CheckLevel | backlog/py/fsd/models.py:263-273 | true exactly when every facet exists and all it requires holds; a fault exactly when an endless facet is reached first |
| Standards.ObstructedFails | backlog/py/fsd/models.py:263-273 | a level fails when an atom it requires, directly or through composition, has no rule but such as lack a target |
| Standards.DetermineLevel | backlog/py/fsd/models.py:254-261 | the last level that holds, else the first, else the bootstrap level; above the first no level is reached that requires an atom all of whose rules are `make` rules with `all_of` and a target missing |
| Evaluations.StatusMeaning | backlog/py/fsd/evaluate.py:201-301 | which status an atom gets: profile before skip list before scope before disabling, and only then whether one of the rules in force holds |
| Evaluations.ScopeMeaning | backlog/py/fsd/evaluate.py:180-183 | the scope of an atom is that of its domain's last entry, and `project` without one |
| Evaluations.RulesMeaning | backlog/py/fsd/evaluate.py:240-266 | the rules in force: the override's own if it has any; with targets or aliases alone the atom's, with these names in the place of what its `make` rules ask for; otherwise the atom's |
| Evaluations.AtomResultMeaning | backlog/py/fsd/evaluate.py:201-301 | the rest of an atom's result: the targets it asks for, the first rule that holds and which of its targets are there, or the targets that are missing |
| Evaluations.MakeTargetsMeaning | backlog/py/fsd/models.py:167-172 | the targets of several rules are those of the one part and then those of the other |
| Evaluations.MakeTargetsOfOne | backlog/py/fsd/models.py:167-172 | the targets of one rule are its `any_of` and then its `all_of` for a `make` rule, and none otherwise |
| Evaluations.RedirectedMeaning | backlog/py/fsd/evaluate.py:258-266 | with targets overridden, any one of them satisfies the atom wherever it asked for a Make target, and other rules stand |
| Evaluations.PresentAndAbsent | backlog/py/fsd/evaluate.py:274-290 | the reported targets are split by whether they exist, in order and each as often as it is asked for |
| Evaluations.PlainAtom | backlog/py/fsd/evaluate.py:186-301 | without configuration an atom is satisfied or failed as its own check says, and out of scope when organization-scoped |
| Evaluations.MoreTargetsKeepAtom | backlog/py/fsd/evaluate.py:186-301 | more Make targets leave an atom's status as it is or turn failed into satisfied, with any overrides, skips and profile |
| Evaluations.StatusesById | backlog/py/fsd/evaluate.py:331-348 | of atoms with one id the last decides, in the statuses as in the lookup by id |
| Evaluations.EvaluateFacet | backlog/py/fsd/evaluate.py:354-381 | required atoms split, in order, into those satisfied, skipped or out of scope and the missing ones; satisfied exactly when none is missing |
| Evaluations.EvaluateLevel | backlog/py/fsd/evaluate.py:388-416 | achieved exactly when all that its existing facets require is accepted, and the required ids in full |
| Evaluations.Evaluate | backlog/py/fsd/evaluate.py:304-438 | a report exactly when every facet resolves: each atom, facet and level as specified, and the last level that is achieved, else the first, else L0 |
| Evaluations.MoreTargetsKeepFacet | backlog/py/fsd/evaluate.py:350-381 | more Make targets never lose a facet |
| Evaluations.MoreTargetsNeverLowerLevel | backlog/py/fsd/evaluate.py:383-416 | more Make targets never lower the level of the full evaluation |
| Evaluations.MoreTargetsNeverLowerDetermined | backlog/py/fsd/models.py:254-273 | nor that of `determine_level` |
| Evaluations.DeterminedIsNoHigher | backlog/py/fsd/models.py:254-273 | without configuration `determine_level` never arrives higher than `evaluate` |
| Evaluations.TheTwoFormsAgreeIff | backlog/py/fsd/evaluate.py:383-416 | for one evaluation, the two differ exactly when its level is above the first and names something undeclared or rests on an organization-scoped atom that does not hold |
| Evaluations.TheTwoFormsAgree | backlog/py/fsd/evaluate.py:383-416 | they agree when no domain is organization-scoped, every facet a level names is declared and every facet resolves |
| Evaluations.UndeclaredFacetSplitsThem | backlog/py/fsd/evaluate.py:390-393 | a level that names an undeclared facet passes in one and fails in the other |
| Evaluations.AcyclicNeverFaults | backlog/py/fsd/models.py:209-215 | with acyclic composition neither form ends in a recursion error |
| Matchers.MatchSegments | backlog/py/substrate/spec.py:472-487 | the backtracking terminates and succeeds exactly when the segments can be cut into pieces that fit the pattern, `**` fitting any |
| Matchers.MatchesByParts | backlog/py/substrate/spec.py:472-487 | p followed by q matches exactly when some split has p match the front and q the back |
| Matchers.AnyTwiceIsAnyOnce | backlog/py/substrate/spec.py:476-482 | `**` twice in a row says no more than once, anywhere in a pattern |
| Matchers.SplitIsExact | backlog/py/substrate/spec.py:469 | splitting at slashes loses nothing and leaves no slash in a segment |
| Matchers.NormaliseMeaning | backlog/py/substrate/spec.py:457-458 | a normalised path has no backslash and does not begin with a slash, and a slash of either kind in front changes nothing |
| Matchers.SlashesInFront | backlog/py/substrate/spec.py:497-509 | slashes in front of a path change no verdict |
| Matchers.Matches | backlog/py/substrate/spec.py:461-469 | matching is on the segments of the normalised path |
| Matchers.ValidatePath | backlog/py/substrate/spec.py:497-509 | the first entry whose pattern the path matches; an escape error exactly for an empty path or one that begins with two dots |

## Left out

- GraphModels.Sorted: deep copies are values here, so sharing of attribute dictionaries between graphs is not modelled.
- GraphModels.FromIterables: when it fails on a dangling edge the model also gives the graph built so far.
- Direct mutation of `Graph.nodes` and `Graph.edges` after a lookup, which makes the index stale.
- The digest inside `edge_id`: it is an arbitrary function of kind, ends and attributes.
- `node`, `by_kind` and `edges_by_kind` of the graph, which are plain filters.
- Python's recursion limit: recursion that ends is taken to succeed.
- GraphLaws.MergeCommutes: `meta` is not compared, since each side keeps its own.
- Catalogs.CrossValidate: which issues are raised is exact; their order and how often a repeated mention is repeated are not stated. Dependency sets are given in some fixed order.
- The rest of the catalog renderer (HTML, Markdown and tree output).
- Keysets.PredicateSelects: column values are integers, standing for any totally ordered type without rounding; NULLs are ordered as PostgreSQL does by default.
- Scrolls.PaginateScroll: a row is its keyset, so which of several rows with one keyset comes first is not stated; the whole runs are over tables whose keyset is unique and ends in a non-NULL tiebreaker. Base64 and JSON of the cursor, and parsing of typed cursor values, are a round trip.
- Sessions, joins, loader options and extra conditions of the queries: a query is a filter, sort and cut of a snapshot.
- OffsetPages.PaginateQuery: the exact page count is claimed up to 2^53 rows and for page sizes up to 2^1074; overflow of the division is not modelled.
- Caches.EveryAnswerIsTheFunctions: one key, used by one function with one set of arguments in one mode; a foreign write is one that does not decode. JSON text is taken to be non-empty and the stored envelope to read back as written. A miss counts as answered when its SET is applied, since the reply changes nothing. The `ops` helpers without a configured cache return the raw result and are not covered.
- Caches.GrantsAreSpaced: nothing deletes the lock key; `invalidate_prefix("")` would.
- A limit on simultaneous cold misses and a monotone `created_at`, which the code does not give: a slow miss may overwrite a newer refresh.
- CacheCalls.Cache.Refresh: the set of background tasks is the set of refreshes in flight; waiting for them at shutdown is not modelled.
- Overlays.DeepMerge: the order of an object's fields and the copying of subtrees are not part of the value; numbers are integers. Associativity, which nothing promises, is not treated.
- Evaluations.Evaluate: names, descriptions, ISO references, detail texts, the skipped list and the comparison with the target level (by text) are dropped; required ids of a level are a set, not a sorted list.
- `resolve_applicable_atoms`: the applicable and disabled ids of the profiles are inputs.
- Standards.DetermineLevel: the file system is three given predicates; errors while reading a file are not modelled.
- Matchers.MatchSegments: `fnmatch.fnmatchcase` on one segment is a parameter.
- `audit` and the directory walk of the substrate specification.
- The Flow driver, the Grid engine, migrations, connection handling, vault, store, vector search, CLI and installers.
