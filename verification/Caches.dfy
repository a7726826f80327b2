/** The stale-while-revalidate cache, as a step system. Many calls for one key run at once;
    each await of the source is a point where anything else may happen: other calls and
    refreshes, expiry, eviction, invalidation, foreign writes, and Redis failing before or
    after it applied a command. A run is any sequence of labels; a label that does not apply
    changes nothing. Time is in milliseconds.

    A command takes effect in one step and its reply comes in another, where the reply decides
    what happens next or how long something is in flight; elsewhere one step stands for both. */
module Caches {
  import opened Outcomes
  import opened Arithmetic
  import opened Sequences

  /** What a call gives back. */
  type Answer(==, !new)

  const LOCK_TTL: nat := 10
  const LOCK_MS: nat := 1000 * LOCK_TTL

  datatype Mode = Plain(ttl: int) | Swr(ttl: int, staleTtl: int)

  /** One key, used by one function with one set of arguments in one mode. */
  datatype World = World(
    mode: Mode,
    payload: string,                                   // serialize(fn(*args))
    parse: string -> Option<Answer>,                    // deserialize(_, response_model)
    pack: (int, string) -> string,                      // json.dumps({"created_at", "value"})
    unpack: string -> Option<(int, string)>)            // json.loads and the two subscripts

  /** JSON text is not empty, and what is packed can be unpacked. */
  ghost predicate Sane(w: World) {
    && w.payload != ""
    && forall c, v :: w.pack(c, v) != "" && w.unpack(w.pack(c, v)) == Some((c, v))
  }

  datatype Origin = Miss | Refreshed | Foreign

  /** A stored value. All but `raw` and `expires` is history: who wrote it, when its
      `created_at` was read off the clock, and when it reached the store. */
  datatype Entry = Entry(raw: string, expires: nat, origin: Origin, stampedAt: nat, writtenAt: nat)

  /** Evidence of a hit: the entry served, when it was read from the store, and when the call
      read the clock to tell its age. */
  datatype Hit = Hit(entry: Entry, readAt: nat, seenAt: nat)

  datatype Call =
    | Asked
    | Got(entry: Option<Entry>, readAt: nat)
    | Locking(value: Answer, hit: Hit)
    | Waiting(value: Answer, hit: Hit, won: Option<nat>)
    | Invalidating(stampedAt: nat)
    | Computing(stampedAt: nat)
    | Storing(stampedAt: nat)
    | Returned(value: Answer, from: Option<Hit>)
    | Raised

  datatype Refresh = Running | Stamped(stampedAt: nat) | Stored

  /** `granted` are the times at which the refresh lock was won by a call that gets to know of
      it, oldest first. A refresh is named by the place of its lock in that list; `started` says
      when its task was created, once the reply was in. `refreshes` are the tasks in flight. */
  datatype State = State(
    now: nat,
    entry: Option<Entry>,
    lock: Option<nat>,
    calls: map<nat, Call>,
    refreshes: map<nat, Refresh>,
    granted: seq<nat>,
    started: map<nat, nat>)

  const INIT := State(0, None, None, map[], map[], [], map[])

  /** How Redis answers a command: done, refused before it did anything, or done with the
      reply lost. */
  datatype Reply = Done | Failed | Lost

  datatype Label =
    | Tick(elapsed: nat)
    | Drop                                   // expiry, eviction, invalidation by anyone
    | ForeignWrite(raw: string, expires: nat)
    | Begin(id: nat)
    | Get(id: nat, reply: Reply)
    | Decide(id: nat)
    | Invalidate(id: nat, reply: Reply)
    | Compute(id: nat, ok: bool)
    | Store(id: nat, reply: Reply)
    | TakeLock(id: nat, reply: Reply)
    | HearLock(id: nat)
    | RefreshCompute(rid: nat, ok: bool)
    | RefreshStore(rid: nat, reply: Reply)
    | RefreshEnd(rid: nat)

  // --- Decoding -----------------------------------------------------------------------------

  /** What a read of `raw` decodes to: its age stamp, if it has one, and its value. */
  function Decode(w: World, raw: string): Option<(int, Answer)> {
    match w.mode
    case Plain(_) =>
      (match w.parse(raw)
       case Some(v) => Some((0, v))
       case None => None)
    case Swr(_, _) =>
      match w.unpack(raw)
      case None => None
      case Some(p) =>
        match w.parse(p.1)
        case Some(v) => Some((p.0, v))
        case None => None
  }

  function Encode(w: World, stampedAt: nat): string {
    match w.mode
    case Plain(_) => w.payload
    case Swr(_, _) => w.pack(stampedAt / 1000, w.payload)
  }

  function KeepFor(w: World): int {
    match w.mode
    case Plain(ttl) => ttl
    case Swr(_, staleTtl) => staleTtl
  }

  /** What `set` stores: nothing when the time to live is not positive. */
  function Kept(w: World, at: nat, origin: Origin, stampedAt: nat): Option<Entry> {
    if KeepFor(w) <= 0 then None
    else Some(Entry(Encode(w, stampedAt), at + 1000 * KeepFor(w), origin, stampedAt, at))
  }

  /** What is stored after a `set`: what was, if there is nothing to store or Redis fails. */
  function Written(w: World, s: State, reply: Reply, origin: Origin, stampedAt: nat): Option<Entry> {
    var kept := Kept(w, s.now, origin, stampedAt);
    if kept.None? || reply.Failed? then s.entry else kept
  }

  function Live(s: State): Option<Entry> {
    if s.entry.Some? && s.now < s.entry.value.expires then s.entry else None
  }

  /** What a call does once its GET has come back. */
  function AfterGet(w: World, s: State, e: Option<Entry>, readAt: nat): Call {
    if e.None? || e.value.raw == "" then Computing(s.now)
    else
      match Decode(w, e.value.raw)
      case None => Invalidating(s.now)
      case Some(d) =>
        if w.mode.Swr? && s.now / 1000 - d.0 > w.mode.ttl then Locking(d.1, Hit(e.value, readAt, s.now))
        else Returned(d.1, Some(Hit(e.value, readAt, s.now)))
  }

  // --- Steps ----------------------------------------------------------------------------------

  function Step(w: World, s: State, l: Label): State {
    match l
    case Tick(elapsed) => s.(now := s.now + elapsed)
    case Drop => s.(entry := None)
    case ForeignWrite(raw, expires) =>
      if raw != "" && Decode(w, raw).Some? then s
      else s.(entry := Some(Entry(raw, expires, Foreign, s.now, s.now)))
    case Begin(id) =>
      if id in s.calls then s else s.(calls := s.calls[id := Asked])
    case Get(id, reply) =>
      if id in s.calls && s.calls[id].Asked? then
        s.(calls := s.calls[id := Got(if reply.Done? then Live(s) else None, s.now)])
      else s
    case Decide(id) =>
      if id in s.calls && s.calls[id].Got? then
        s.(calls := s.calls[id := AfterGet(w, s, s.calls[id].entry, s.calls[id].readAt)])
      else s
    case Invalidate(id, reply) =>
      if id in s.calls && s.calls[id].Invalidating? then
        s.(calls := s.calls[id := Computing(s.calls[id].stampedAt)], entry := if reply.Failed? then s.entry else None)
      else s
    case Compute(id, ok) =>
      if id in s.calls && s.calls[id].Computing? then
        s.(calls := s.calls[id := if ok then Storing(s.calls[id].stampedAt) else Raised])
      else s
    case Store(id, reply) =>
      if id in s.calls && s.calls[id].Storing? then
        var answer := w.parse(w.payload);
        s.(calls := s.calls[id := if answer.Some? then Returned(answer.value, None) else Raised],
           entry := Written(w, s, reply, Miss, s.calls[id].stampedAt))
      else s
    case TakeLock(id, reply) =>
      if id in s.calls && s.calls[id].Locking? then
        var c := s.calls[id];
        var free := s.lock.None? || s.now >= s.lock.value;
        if reply.Failed? || !free then s.(calls := s.calls[id := Waiting(c.value, c.hit, None)])
        else if reply.Lost? then
          s.(calls := s.calls[id := Waiting(c.value, c.hit, None)], lock := Some(s.now + LOCK_MS))
        else
          s.(calls := s.calls[id := Waiting(c.value, c.hit, Some(|s.granted|))], lock := Some(s.now + LOCK_MS),
             granted := s.granted + [s.now])
      else s
    case HearLock(id) =>
      if id in s.calls && s.calls[id].Waiting? then
        var c := s.calls[id];
        var done := s.(calls := s.calls[id := Returned(c.value, Some(c.hit))]);
        if c.won.None? then done
        else done.(refreshes := s.refreshes[c.won.value := Running], started := s.started[c.won.value := s.now])
      else s
    case RefreshCompute(rid, ok) =>
      if rid in s.refreshes && s.refreshes[rid].Running? then
        s.(refreshes := if ok then s.refreshes[rid := Stamped(s.now)] else s.refreshes - {rid})
      else s
    case RefreshStore(rid, reply) =>
      if rid in s.refreshes && s.refreshes[rid].Stamped? then
        s.(refreshes := s.refreshes[rid := Stored],
           entry := Written(w, s, reply, Refreshed, s.refreshes[rid].stampedAt))
      else s
    case RefreshEnd(rid) =>
      if rid in s.refreshes && s.refreshes[rid].Stored? then s.(refreshes := s.refreshes - {rid}) else s
  }

  function Run(w: World, labels: seq<Label>): State {
    if labels == [] then INIT else Step(w, Run(w, labels[..|labels| - 1]), labels[|labels| - 1])
  }

  lemma RunOneMore(w: World, labels: seq<Label>, l: Label)
    ensures Run(w, labels + [l]) == Step(w, Run(w, labels), l)
  {
    assert (labels + [l])[..|labels + [l]| - 1] == labels;
  }

  lemma ThreeMore(w: World, labels: seq<Label>, a: Label, b: Label, c: Label)
    ensures Run(w, labels + [a] + [b] + [c]) == Step(w, Step(w, Step(w, Run(w, labels), a), b), c)
  {
    RunOneMore(w, labels, a);
    RunOneMore(w, labels + [a], b);
    RunOneMore(w, labels + [a] + [b], c);
  }

  // --- Transparency ---------------------------------------------------------------------------

  /** Whatever the entry decodes to is the answer of the function. */
  ghost predicate EntryOk(w: World, e: Entry) {
    e.raw != "" && Decode(w, e.raw).Some? ==>
      && Some(Decode(w, e.raw).value.1) == w.parse(w.payload)
      && !e.origin.Foreign?
  }

  /** The answer that the call carries. */
  function AnswerOf(c: Call): Option<Answer> {
    if c.Locking? || c.Waiting? || c.Returned? then Some(c.value) else None
  }

  /** The hit that the call is served from. */
  function HitOf(c: Call): Option<Hit> {
    if c.Locking? || c.Waiting? then Some(c.hit) else if c.Returned? then c.from else None
  }

  ghost predicate CallOk(w: World, c: Call) {
    && (c.Got? && c.entry.Some? ==> EntryOk(w, c.entry.value))
    && (AnswerOf(c).Some? ==> AnswerOf(c) == w.parse(w.payload))
  }

  ghost predicate Transparent(w: World, s: State) {
    && (s.entry.Some? ==> EntryOk(w, s.entry.value))
    && forall id | id in s.calls :: CallOk(w, s.calls[id])
  }

  lemma WrittenIsOk(w: World, s: State, reply: Reply, origin: Origin, stampedAt: nat)
    requires Sane(w) && !origin.Foreign? && (s.entry.Some? ==> EntryOk(w, s.entry.value))
    ensures var e := Written(w, s, reply, origin, stampedAt); e.Some? ==> EntryOk(w, e.value)
  {}

  lemma StepKeepsTransparent(w: World, s: State, l: Label)
    requires Sane(w) && Transparent(w, s)
    ensures Transparent(w, Step(w, s, l))
  {
    hide Written, EntryOk, Sane, Decode;
    match l
    case Store(id, reply) =>
      if id in s.calls && s.calls[id].Storing? {
        WrittenIsOk(w, s, reply, Miss, s.calls[id].stampedAt);
      }
    case RefreshStore(rid, reply) =>
      if rid in s.refreshes && s.refreshes[rid].Stamped? {
        WrittenIsOk(w, s, reply, Refreshed, s.refreshes[rid].stampedAt);
      }
    case ForeignWrite(raw, expires) =>
      ForeignIsOk(w, s, raw, expires);
    case Decide(id) =>
      if id in s.calls && s.calls[id].Got? {
        AfterGetIsOk(w, s, s.calls[id].entry, s.calls[id].readAt);
      }
    case _ =>
  }

  lemma ForeignIsOk(w: World, s: State, raw: string, expires: nat)
    ensures raw == "" || Decode(w, raw).None? ==> EntryOk(w, Entry(raw, expires, Foreign, s.now, s.now))
  {}

  lemma AfterGetIsOk(w: World, s: State, e: Option<Entry>, readAt: nat)
    requires e.Some? ==> EntryOk(w, e.value)
    ensures CallOk(w, AfterGet(w, s, e, readAt))
  {}

  lemma {:induction false} AlwaysTransparent(w: World, labels: seq<Label>)
    requires Sane(w)
    ensures Transparent(w, Run(w, labels))
  {
    if labels != [] {
      AlwaysTransparent(w, labels[..|labels| - 1]);
      StepKeepsTransparent(w, Run(w, labels[..|labels| - 1]), labels[|labels| - 1]);
    }
  }

  /** Whatever runs at once and whatever fails, every value a call returns is
      deserialize(serialize(fn(args))). */
  lemma EveryAnswerIsTheFunctions(w: World, labels: seq<Label>, id: nat)
    requires Sane(w)
    ensures var s := Run(w, labels);
      id in s.calls && s.calls[id].Returned? ==> Some(s.calls[id].value) == w.parse(w.payload)
  {
    AlwaysTransparent(w, labels);
  }

  // --- Failures -------------------------------------------------------------------------------

  /** Nothing Redis does reaches the caller: while the function succeeds and its answer reads
      back, no call raises. */
  lemma {:induction false} OnlyTheFunctionRaises(w: World, labels: seq<Label>, id: nat)
    requires w.parse(w.payload).Some?
    requires forall l | l in labels :: l.Compute? ==> l.ok
    ensures id in Run(w, labels).calls ==> !Run(w, labels).calls[id].Raised?
  {
    if labels != [] {
      OnlyTheFunctionRaises(w, labels[..|labels| - 1], id);
      StepDoesNotRaise(w, Run(w, labels[..|labels| - 1]), labels[|labels| - 1], id);
    }
  }

  lemma StepDoesNotRaise(w: World, s: State, l: Label, id: nat)
    requires w.parse(w.payload).Some? && (l.Compute? ==> l.ok)
    requires id in s.calls ==> !s.calls[id].Raised?
    ensures id in Step(w, s, l).calls ==> !Step(w, s, l).calls[id].Raised?
  {
    hide Written, Decode;
  }

  // --- The refresh lock -----------------------------------------------------------------------

  ghost predicate Spaced(granted: seq<nat>) {
    forall i, j | 0 <= i < j < |granted| :: granted[j] - granted[i] >= LOCK_MS * (j - i)
  }

  /** The lock that the call has won and whose reply it waits for. */
  function Won(s: State, id: nat): Option<nat> {
    if id in s.calls && s.calls[id].Waiting? then s.calls[id].won else None
  }

  ghost predicate GrantsOk(s: State) {
    && Spaced(s.granted)
    && (s.granted != [] ==>
         var last := s.granted[|s.granted| - 1];
         last <= s.now && s.lock.Some? && s.lock.value >= last + LOCK_MS)
  }

  /** A refresh starts after its lock was won. */
  ghost predicate StartsOk(s: State) {
    && s.refreshes.Keys <= s.started.Keys
    && (forall i | 0 <= i < |s.granted| :: s.granted[i] <= s.now)
    && (forall r | r in s.started && r < |s.granted| :: s.granted[r] <= s.started[r])
  }

  /** No lock starts two refreshes. */
  ghost predicate WinnersOk(s: State) {
    && (forall r | r in s.started :: r < |s.granted|)
    && (forall id: nat | Won(s, id).Some? :: Won(s, id).value < |s.granted| && Won(s, id).value !in s.started)
    && (forall id: nat, id': nat | Won(s, id).Some? && Won(s, id') == Won(s, id) :: id == id')
  }

  ghost predicate LockOk(s: State) {
    GrantsOk(s) && StartsOk(s) && WinnersOk(s)
  }

  /** Any two grants of the refresh lock, to any clients, are LOCK_TTL apart. */
  lemma GrantsAreSpaced(w: World, labels: seq<Label>, i: nat, j: nat)
    requires i < j < |Run(w, labels).granted|
    ensures Run(w, labels).granted[j] - Run(w, labels).granted[i] >= LOCK_MS * (j - i)
  {
    LockAlwaysOk(w, labels);
  }

  /** How long the reply to a granted lock took: from the grant to the start of its refresh. */
  function ReplyDelay(s: State, r: nat): int {
    if r in s.started && r < |s.granted| then s.started[r] as int - s.granted[r] as int else 0
  }

  /** Any two background refreshes of the key, by any clients, start LOCK_TTL apart, but for what
      the earlier one waited longer than the later for the reply to its lock. */
  lemma RefreshesAreSpaced(w: World, labels: seq<Label>, i: nat, j: nat)
    requires i < j && i in Run(w, labels).started && j in Run(w, labels).started
    ensures var s := Run(w, labels);
      s.started[j] - s.started[i] >= LOCK_MS * (j - i) + ReplyDelay(s, j) - ReplyDelay(s, i)
  {
    LockAlwaysOk(w, labels);
  }

  lemma GrantKeepsSpacing(granted: seq<nat>, now: nat)
    requires Spaced(granted)
    requires granted != [] ==> now >= granted[|granted| - 1] + LOCK_MS
    ensures Spaced(granted + [now])
  {
    var more := granted + [now];
    forall i, j | 0 <= i < j < |more| ensures more[j] - more[i] >= LOCK_MS * (j - i) {
      if j == |granted| && i < j - 1 {
        assert granted[j - 1] - granted[i] >= LOCK_MS * (j - 1 - i);
      }
    }
  }

  lemma StepKeepsGrants(w: World, s: State, l: Label)
    requires GrantsOk(s)
    ensures GrantsOk(Step(w, s, l))
  {
    hide Written, AfterGet, Decode, Live, Spaced;
    match l
    case TakeLock(id, reply) =>
      if s.granted == [] || s.now >= s.granted[|s.granted| - 1] + LOCK_MS {
        GrantKeepsSpacing(s.granted, s.now);
      }
    case _ =>
  }

  lemma StepKeepsStarts(w: World, s: State, l: Label)
    requires StartsOk(s) && WinnersOk(s)
    ensures StartsOk(Step(w, s, l))
  {
    hide Written, AfterGet, Decode, Live;
    match l
    case HearLock(id) =>
      assert Won(s, id).Some? ==> Won(s, id).value < |s.granted|;
    case _ =>
  }

  /** Call `id` keeps what it has won, loses it as its refresh starts, or wins the newest lock. */
  ghost predicate WonSame(w: World, s: State, l: Label, id: nat) {
    var t := Step(w, s, l);
    && (|| Won(t, id) == Won(s, id)
        || Won(t, id).None?
        || (l.TakeLock? && l.id == id && Won(t, id) == Some(|s.granted|) && |t.granted| == |s.granted| + 1))
    && (l == HearLock(id) ==> Won(t, id).None?)
  }

  lemma WonAfter(w: World, s: State, l: Label, id: nat)
    ensures WonSame(w, s, l, id)
  {
    hide Written, Decode, Live;
  }

  /** The step starts no refresh but that of the call which hears of its lock. */
  lemma StartedAfter(w: World, s: State, l: Label)
    ensures var t := Step(w, s, l);
      && |s.granted| <= |t.granted|
      && forall r | r in t.started :: r in s.started || (l.HearLock? && Won(s, l.id) == Some(r))
  {
    hide Written, AfterGet, Decode, Live;
  }

  lemma StepKeepsWinners(w: World, s: State, l: Label)
    requires WinnersOk(s)
    ensures WinnersOk(Step(w, s, l))
  {
    hide Step, Won;
    var t := Step(w, s, l);
    StartedAfter(w, s, l);
    forall id: nat ensures WonSame(w, s, l, id) {
      WonAfter(w, s, l, id);
    }
    forall id: nat | Won(t, id).Some? ensures Won(t, id).value < |t.granted| && Won(t, id).value !in t.started {
      assert WonSame(w, s, l, id);
    }
    forall id: nat, id': nat | Won(t, id).Some? && Won(t, id') == Won(t, id) ensures id == id' {
      assert WonSame(w, s, l, id) && WonSame(w, s, l, id');
    }
  }

  lemma {:induction false} LockAlwaysOk(w: World, labels: seq<Label>)
    ensures LockOk(Run(w, labels))
  {
    hide GrantsOk, StartsOk, WinnersOk;
    if labels == [] {
      InitIsOk();
    } else {
      LockAlwaysOk(w, labels[..|labels| - 1]);
      StepKeepsGrants(w, Run(w, labels[..|labels| - 1]), labels[|labels| - 1]);
      StepKeepsStarts(w, Run(w, labels[..|labels| - 1]), labels[|labels| - 1]);
      StepKeepsWinners(w, Run(w, labels[..|labels| - 1]), labels[|labels| - 1]);
    }
  }

  lemma InitIsOk()
    ensures GrantsOk(INIT) && StartsOk(INIT) && WinnersOk(INIT)
  {}

  // --- Who asks for the lock -------------------------------------------------------------------

  /** The entry was older than `ttl` when the call read the clock. */
  predicate IsOld(w: World, h: Hit) {
    Overdue(w, h) > 0
  }

  /** By how much the age of the entry exceeds `ttl`, where ages matter. */
  function Overdue(w: World, h: Hit): int {
    if w.mode.Swr? && Decode(w, h.entry.raw).Some? then
      h.seenAt / 1000 - Decode(w, h.entry.raw).value.0 - w.mode.ttl
    else 0
  }

  /** The call that asks for the refresh lock in this step, if there is one. */
  function Asking(s: State, l: Label): set<nat> {
    if l.TakeLock? && l.id in s.calls && s.calls[l.id].Locking? then {l.id} else {}
  }

  /** The calls that have asked for the refresh lock. */
  ghost function AskedForLock(w: World, labels: seq<Label>): set<nat> {
    if labels == [] then {}
    else
      var before := labels[..|labels| - 1];
      AskedForLock(w, before) + Asking(Run(w, before), labels[|labels| - 1])
  }

  /** The call is past asking for the lock. */
  predicate HasAsked(w: World, c: Call) {
    c.Waiting? || (c.Returned? && c.from.Some? && IsOld(w, c.from.value))
  }

  ghost predicate AsksRightly(w: World, s: State, asked: set<nat>, id: nat) {
    && (id in asked <==> id in s.calls && HasAsked(w, s.calls[id]))
    && (id in s.calls && (s.calls[id].Locking? || s.calls[id].Waiting?) ==>
          IsOld(w, s.calls[id].hit))
  }

  /** A call that has returned asked for the refresh lock exactly when it was served an entry
      older than `ttl`. */
  lemma LockIsAskedForByOldHits(w: World, labels: seq<Label>, id: nat)
    ensures var s := Run(w, labels);
      id in s.calls && s.calls[id].Returned? ==>
        var hit := s.calls[id].from;
        id in AskedForLock(w, labels) <==> hit.Some? && IsOld(w, hit.value)
  {
    AlwaysAsksRightly(w, labels, id);
  }

  lemma StepAsksRightly(w: World, s: State, l: Label, asked: set<nat>, id: nat)
    requires AsksRightly(w, s, asked, id)
    ensures AsksRightly(w, Step(w, s, l), asked + Asking(s, l), id)
  {
    hide Written, Live;
  }

  lemma {:induction false} AlwaysAsksRightly(w: World, labels: seq<Label>, id: nat)
    ensures AsksRightly(w, Run(w, labels), AskedForLock(w, labels), id)
  {
    if labels != [] {
      var before := labels[..|labels| - 1];
      AlwaysAsksRightly(w, before, id);
      StepAsksRightly(w, Run(w, before), labels[|labels| - 1], AskedForLock(w, before), id);
    }
  }

  // --- How many refreshes ------------------------------------------------------------------------

  /** The refresh has run for at most `run` milliseconds, after a reply that took at most `reply`. */
  ghost predicate Within(s: State, r: nat, run: nat, reply: nat) {
    r in s.started && s.now - s.started[r] <= run && ReplyDelay(s, r) <= reply
  }

  /** If every refresh in flight has run for at most `run` milliseconds and started within `reply`
      of its lock, at most floor((run + reply) / LOCK_TTL) + 1 of them are in flight. */
  lemma FewRefreshesAtOnce(w: World, labels: seq<Label>, run: nat, reply: nat)
    requires forall r | r in Run(w, labels).refreshes :: Within(Run(w, labels), r, run, reply)
    ensures |Run(w, labels).refreshes| <= (run + reply) / LOCK_MS + 1
  {
    hide Run, GrantsOk, Spaced;
    LockAlwaysOk(w, labels);
    FewSinceGranted(Run(w, labels), run + reply);
  }

  /** If no refresh in flight was granted its lock more than `limit` milliseconds ago, at most
      floor(limit / LOCK_TTL) + 1 of them are in flight. */
  lemma FewSinceGranted(s: State, limit: nat)
    requires LockOk(s)
    requires forall r | r in s.refreshes :: s.now - s.granted[r] <= limit
    ensures |s.refreshes| <= limit / LOCK_MS + 1
  {
    var n := |s.granted|;
    var low := n - 1 - limit / LOCK_MS;
    forall r | r in s.refreshes.Keys ensures low <= r < low + limit / LOCK_MS + 1 {
      if r < n - 1 {
        assert s.granted[n - 1] - s.granted[r] >= LOCK_MS * (n - 1 - r);
        FewPeriods(LOCK_MS, n - 1 - r, limit);
      }
    }
    SmallRange(s.refreshes.Keys, low, limit / LOCK_MS + 1);
    assert |s.refreshes| == |s.refreshes.Keys|;
  }
}
