/** How old the values are that the stale-while-revalidate cache serves, and for how long it
    serves them. */
module CacheAges {
  import opened Outcomes
  import opened Caches

  // --- How old a hit may be --------------------------------------------------------------------

  /** How long, in seconds, a value may take from its stamp to the store. A miss is stamped
      before the function runs, a refresh after it. */
  datatype Delays = Delays(miss: nat, refresh: nat) {
    function Of(o: Origin): nat {
      if o.Refreshed? then refresh else miss
    }
  }

  ghost predicate WritesInTime(s: State, l: Label, d: Delays) {
    match l
    case Store(id, _) =>
      id in s.calls && s.calls[id].Storing? ==> s.now - s.calls[id].stampedAt <= 1000 * d.miss
    case RefreshStore(r, _) =>
      r in s.refreshes && s.refreshes[r].Stamped? ==> s.now - s.refreshes[r].stampedAt <= 1000 * d.refresh
    case _ => true
  }

  /** Every write of the run reached the store in time. */
  ghost predicate Punctual(w: World, labels: seq<Label>, d: Delays) {
    labels == [] ||
    var before := labels[..|labels| - 1];
    Punctual(w, before, d) && WritesInTime(Run(w, before), labels[|labels| - 1], d)
  }

  /** An entry this system wrote carries its stamp and expires `stale_ttl` after the write;
      any other does not decode. */
  ghost predicate Dated(w: World, e: Entry, d: Delays) {
    if e.origin.Foreign? then e.raw == "" || Decode(w, e.raw).None?
    else
      && Some(e) == Kept(w, e.writtenAt, e.origin, e.stampedAt)
      && e.writtenAt - e.stampedAt <= 1000 * d.Of(e.origin)
  }

  ghost predicate HitOk(w: World, h: Hit, d: Delays) {
    && Dated(w, h.entry, d)
    && h.entry.raw != "" && Decode(w, h.entry.raw).Some?
    && h.readAt < h.entry.expires
  }

  ghost predicate CallDated(w: World, c: Call, d: Delays) {
    && (c.Got? && c.entry.Some? ==>
          Dated(w, c.entry.value, d) && c.readAt < c.entry.value.expires)
    && (HitOf(c).Some? ==> HitOk(w, HitOf(c).value, d))
  }

  ghost predicate AllDated(w: World, s: State, d: Delays) {
    && (s.entry.Some? ==> Dated(w, s.entry.value, d))
    && forall id | id in s.calls :: CallDated(w, s.calls[id], d)
  }

  lemma WrittenIsDated(w: World, s: State, reply: Reply, origin: Origin, stampedAt: nat, d: Delays)
    requires !origin.Foreign? && (s.entry.Some? ==> Dated(w, s.entry.value, d))
    requires s.now - stampedAt <= 1000 * d.Of(origin)
    ensures var e := Written(w, s, reply, origin, stampedAt); e.Some? ==> Dated(w, e.value, d)
  {}

  lemma AfterGetIsDated(w: World, s: State, e: Option<Entry>, readAt: nat, d: Delays)
    requires e.Some? ==> Dated(w, e.value, d) && readAt < e.value.expires
    ensures CallDated(w, AfterGet(w, s, e, readAt), d)
  {
    hide Dated;
  }

  lemma StepKeepsDates(w: World, s: State, l: Label, d: Delays)
    requires AllDated(w, s, d) && WritesInTime(s, l, d)
    ensures AllDated(w, Step(w, s, l), d)
  {
    hide Written, Decode, HitOk, AfterGet;
    match l
    case Store(id, reply) =>
      if id in s.calls && s.calls[id].Storing? {
        WrittenIsDated(w, s, reply, Miss, s.calls[id].stampedAt, d);
      }
    case RefreshStore(r, reply) =>
      if r in s.refreshes && s.refreshes[r].Stamped? {
        WrittenIsDated(w, s, reply, Refreshed, s.refreshes[r].stampedAt, d);
      }
    case Decide(id) =>
      if id in s.calls && s.calls[id].Got? {
        AfterGetIsDated(w, s, s.calls[id].entry, s.calls[id].readAt, d);
      }
    case _ =>
  }

  lemma {:induction false} AlwaysDated(w: World, labels: seq<Label>, d: Delays)
    requires Punctual(w, labels, d)
    ensures AllDated(w, Run(w, labels), d)
  {
    if labels != [] {
      AlwaysDated(w, labels[..|labels| - 1], d);
      StepKeepsDates(w, Run(w, labels[..|labels| - 1]), labels[|labels| - 1], d);
    }
  }

  /** The whole seconds between the stamp of the entry served and the moment it was read. */
  function Age(w: World, h: Hit): int
    requires Decode(w, h.entry.raw).Some?
  {
    h.readAt / 1000 - Decode(w, h.entry.raw).value.0
  }

  lemma AgeOfDated(w: World, h: Hit, d: Delays)
    requires Sane(w) && w.mode.Swr? && HitOk(w, h, d)
    ensures Age(w, h) <= w.mode.staleTtl + d.Of(h.entry.origin)
  {}

  /** A hit served by `fetch_swr` is never older than stale_ttl plus the time its writer took
      from stamp to store: for a miss that time includes the function, for a refresh it is the
      write alone. */
  lemma HitsAreNeverTooOld(w: World, labels: seq<Label>, d: Delays, id: nat)
    requires Sane(w) && w.mode.Swr? && Punctual(w, labels, d)
    ensures var s := Run(w, labels);
      id in s.calls && s.calls[id].Returned? && s.calls[id].from.Some? ==>
        var h := s.calls[id].from.value;
        && Decode(w, h.entry.raw).Some?
        && !h.entry.origin.Foreign?
        && Age(w, h) <= w.mode.staleTtl + d.Of(h.entry.origin)
  {
    AlwaysDated(w, labels, d);
    var s := Run(w, labels);
    if id in s.calls && s.calls[id].Returned? && s.calls[id].from.Some? {
      AgeOfDated(w, s.calls[id].from.value, d);
    }
  }

  lemma MorePunctual(w: World, labels: seq<Label>, d: Delays, e: Delays)
    requires Punctual(w, labels, d) && d.miss <= e.miss && d.refresh <= e.refresh
    ensures Punctual(w, labels, e)
  {}

  /** Every run is punctual for some delays. */
  lemma {:induction false} SomeDelays(w: World, labels: seq<Label>) returns (d: Delays)
    ensures Punctual(w, labels, d)
  {
    if labels == [] {
      d := Delays(0, 0);
    } else {
      var before := labels[..|labels| - 1];
      var c := SomeDelays(w, before);
      var now := Run(w, before).now;
      d := Delays(c.miss + now, c.refresh + now);
      MorePunctual(w, before, c, d);
    }
  }

  /** Every hit of `fetch_swr`, on every run, was read less than stale_ttl after its entry was
      written: a stale value is not served for stale_ttl more, but until stale_ttl in all. */
  lemma HitsEndAtStaleTtl(w: World, labels: seq<Label>, id: nat)
    requires w.mode.Swr?
    ensures var s := Run(w, labels);
      id in s.calls && s.calls[id].Returned? && s.calls[id].from.Some? ==>
        var h := s.calls[id].from.value;
        h.readAt < h.entry.writtenAt + 1000 * w.mode.staleTtl
  {
    var d := SomeDelays(w, labels);
    AlwaysDated(w, labels, d);
  }

  /** A run in which a miss takes `delay` seconds, and its entry is asked for `wait` milliseconds
      after it was written. */
  function SlowMiss(delay: nat, wait: nat): seq<Label> {
    [Tick(999), Begin(0), Get(0, Done), Decide(0), Tick(1000 * delay), Compute(0, true), Store(0, Done),
     Tick(wait), Begin(1), Get(1, Done), Decide(1), TakeLock(1, Failed), HearLock(1)]
  }

  /** The run up to its first `n` labels is in order and ends in `s`. */
  ghost predicate At(w: World, labels: seq<Label>, n: nat, d: Delays, s: State) {
    n <= |labels| && (Run(w, labels[..n]), Punctual(w, labels[..n], d)) == (s, true)
  }

  lemma Next(w: World, labels: seq<Label>, n: nat, d: Delays, s: State, t: State)
    requires n < |labels| && At(w, labels, n, d, s) && WritesInTime(s, labels[n], d)
    requires t == Step(w, s, labels[n])
    ensures At(w, labels, n + 1, d, t)
  {
    assert labels[..n + 1] == labels[..n] + [labels[n]];
  }

  /** What the slow miss leaves in the store. */
  function SlowEntry(w: World, delay: nat): Entry
    requires w.mode.Swr? && w.mode.staleTtl > 0
  {
    var now := 999 + 1000 * delay;
    Entry(Encode(w, 999), now + 1000 * w.mode.staleTtl, Miss, 999, now)
  }

  lemma SlowMissComputes(w: World, delay: nat, wait: nat)
    requires w.mode.Swr? && w.mode.staleTtl > 0
    ensures At(w, SlowMiss(delay, wait), 4, Delays(delay, 0), INIT.(now := 999, calls := map[0 := Computing(999)]))
  {
    var d := Delays(delay, 0);
    var labels := SlowMiss(delay, wait);
    assert labels[..0] == [];
    assert At(w, labels, 0, d, INIT);
    assert labels[0] == Tick(999) && labels[1] == Begin(0) && labels[2] == Get(0, Done) && labels[3] == Decide(0);
    hide At, SlowMiss;
    var s := INIT.(now := 999);
    Next(w, labels, 0, d, INIT, s);
    Next(w, labels, 1, d, s, s.(calls := map[0 := Asked]));
    Next(w, labels, 2, d, s.(calls := map[0 := Asked]), s.(calls := map[0 := Got(None, 999)]));
    Next(w, labels, 3, d, s.(calls := map[0 := Got(None, 999)]), s.(calls := map[0 := Computing(999)]));
  }

  lemma SlowMissSerializes(w: World, delay: nat, wait: nat)
    requires w.mode.Swr? && w.mode.staleTtl > 0
    ensures At(w, SlowMiss(delay, wait), 6, Delays(delay, 0),
               INIT.(now := 999 + 1000 * delay, calls := map[0 := Storing(999)]))
  {
    var d := Delays(delay, 0);
    var labels := SlowMiss(delay, wait);
    SlowMissComputes(w, delay, wait);
    assert labels[4] == Tick(1000 * delay) && labels[5] == Compute(0, true);
    hide At, SlowMiss;
    var s := INIT.(now := 999, calls := map[0 := Computing(999)]);
    var t := s.(now := 999 + 1000 * delay);
    Next(w, labels, 4, d, s, t);
    Next(w, labels, 5, d, t, t.(calls := map[0 := Storing(999)]));
  }

  /** The state once the slow miss has stored its entry. */
  function SlowlyStored(w: World, delay: nat): State
    requires w.mode.Swr? && w.mode.staleTtl > 0 && w.parse(w.payload).Some?
  {
    INIT.(now := 999 + 1000 * delay, entry := Some(SlowEntry(w, delay)),
          calls := map[0 := Returned(w.parse(w.payload).value, None)])
  }

  lemma SlowMissIsStored(w: World, delay: nat, wait: nat)
    requires w.mode.Swr? && w.mode.staleTtl > 0 && w.parse(w.payload).Some?
    ensures At(w, SlowMiss(delay, wait), 7, Delays(delay, 0), SlowlyStored(w, delay))
  {
    var labels := SlowMiss(delay, wait);
    SlowMissSerializes(w, delay, wait);
    assert labels[6] == Store(0, Done);
    hide At, Encode, SlowMiss;
    var u := INIT.(now := 999 + 1000 * delay, calls := map[0 := Storing(999)]);
    Next(w, labels, 6, Delays(delay, 0), u, SlowlyStored(w, delay));
  }

  lemma SlowMissIsAskedFor(w: World, delay: nat, wait: nat) returns (s: State)
    requires w.mode.Swr? && w.mode.staleTtl > 0 && w.parse(w.payload).Some?
    ensures At(w, SlowMiss(delay, wait), 9, Delays(delay, 0), s)
    ensures 1 in s.calls && s.calls[1] == Asked && s.lock == None && s.entry == Some(SlowEntry(w, delay))
    ensures s.now == 999 + 1000 * delay + wait
  {
    var d := Delays(delay, 0);
    var labels := SlowMiss(delay, wait);
    SlowMissIsStored(w, delay, wait);
    assert labels[7] == Tick(wait) && labels[8] == Begin(1);
    hide At, Encode, SlowMiss;
    var v := SlowlyStored(w, delay);
    var x := v.(now := 999 + 1000 * delay + wait);
    s := x.(calls := x.calls[1 := Asked]);
    Next(w, labels, 7, d, v, x);
    Next(w, labels, 8, d, x, s);
  }

  lemma SlowMissIsHit(w: World, delay: nat) returns (s: State)
    requires w.mode.Swr? && w.mode.staleTtl > 0 && w.parse(w.payload).Some?
    ensures At(w, SlowMiss(delay, 1000 * w.mode.staleTtl - 1), 10, Delays(delay, 0), s)
    ensures var readAt := 998 + 1000 * (delay + w.mode.staleTtl);
      1 in s.calls && s.calls[1] == Got(Some(SlowEntry(w, delay)), readAt) && s.now == readAt
  {
    var labels := SlowMiss(delay, 1000 * w.mode.staleTtl - 1);
    var r := SlowMissIsAskedFor(w, delay, 1000 * w.mode.staleTtl - 1);
    assert labels[9] == Get(1, Done);
    hide At, SlowMiss, Encode;
    s := r.(calls := r.calls[1 := Got(Some(SlowEntry(w, delay)), r.now)]);
    Next(w, labels, 9, Delays(delay, 0), r, s);
  }

  /** The second call has its entry and goes on to ask for the lock, or to return. */
  lemma SlowMissIsRead(w: World, delay: nat) returns (s: State)
    requires w.mode.Swr? && w.mode.staleTtl > 0 && w.parse(w.payload).Some?
    ensures At(w, SlowMiss(delay, 1000 * w.mode.staleTtl - 1), 11, Delays(delay, 0), s)
    ensures var readAt := 998 + 1000 * (delay + w.mode.staleTtl);
      1 in s.calls && s.calls[1] == AfterGet(w, s, Some(SlowEntry(w, delay)), readAt) && s.now == readAt
  {
    var labels := SlowMiss(delay, 1000 * w.mode.staleTtl - 1);
    var t := SlowMissIsHit(w, delay);
    assert labels[10] == Decide(1);
    hide At, SlowMiss, AfterGet, SlowEntry;
    s := t.(calls := t.calls[1 := AfterGet(w, t, Some(SlowEntry(w, delay)), t.now)]);
    Next(w, labels, 10, Delays(delay, 0), t, s);
  }

  /** A call that is served returns once the lock has failed it. */
  lemma ServedReturns(w: World, s: State, id: nat, v: Answer, h: Hit)
    requires id in s.calls && (s.calls[id] == Locking(v, h) || s.calls[id] == Returned(v, Some(h)))
    ensures var t := Step(w, s, TakeLock(id, Failed));
      var u := Step(w, t, HearLock(id));
      id in u.calls && u.calls[id] == Returned(v, Some(h))
  {}

  /** The bound is reached: an entry of a slow miss, read in its last millisecond, is served that
      old, past stale_ttl. */
  lemma SlowMissReachesTheBound(w: World, delay: nat)
    requires Sane(w) && w.mode.Swr? && w.mode.staleTtl > 0 && w.parse(w.payload).Some?
    ensures var labels := SlowMiss(delay, 1000 * w.mode.staleTtl - 1);
      var s := Run(w, labels);
      && Punctual(w, labels, Delays(delay, 0))
      && 1 in s.calls && s.calls[1].Returned? && s.calls[1].from.Some?
      && var h := s.calls[1].from.value;
      && Decode(w, h.entry.raw).Some? && Age(w, h) == w.mode.staleTtl + delay
  {
    var d := Delays(delay, 0);
    var labels := SlowMiss(delay, 1000 * w.mode.staleTtl - 1);
    var s := SlowMissIsRead(w, delay);
    var e := SlowEntry(w, delay);
    assert Decode(w, e.raw) == Some((0, w.parse(w.payload).value)) && e.raw != "";
    ServedReturns(w, s, 1, w.parse(w.payload).value, Hit(e, s.now, s.now));
    assert labels[11] == TakeLock(1, Failed) && labels[12] == HearLock(1) && labels[..13] == labels;
    hide Step, SlowMiss, SlowEntry;
    var t := Step(w, s, labels[11]);
    Next(w, labels, 11, d, s, t);
    Next(w, labels, 12, d, t, Step(w, t, labels[12]));
  }

  // --- How long a stale value is served ---------------------------------------------------------

  /** What `docs/cache.md` promises of a value older than `ttl`: that it is served for `stale_ttl`
      seconds more. */
  ghost predicate ServedAsDocumented(w: World, s: State) {
    s.entry.Some? && !s.entry.value.origin.Foreign? && Decode(w, s.entry.value.raw).Some? ==>
      var age := s.now / 1000 - Decode(w, s.entry.value.raw).value.0;
      w.mode.ttl < age < w.mode.ttl + KeepFor(w) ==> Live(s) == s.entry
  }

  /** No stamp lies ahead of the clock, and none is later than its write. */
  ghost predicate StampsOk(s: State) {
    && (s.entry.Some? ==> s.entry.value.stampedAt <= s.entry.value.writtenAt)
    && (forall id | id in s.calls :: CallStamp(s.calls[id]) <= s.now)
    && (forall r | r in s.refreshes && s.refreshes[r].Stamped? :: s.refreshes[r].stampedAt <= s.now)
  }

  function CallStamp(c: Call): nat {
    if c.Invalidating? || c.Computing? || c.Storing? then c.stampedAt else 0
  }

  lemma StepKeepsStamps(w: World, s: State, l: Label)
    requires StampsOk(s)
    ensures StampsOk(Step(w, s, l))
  {
    hide Decode, Live, Encode;
  }

  lemma {:induction false} AlwaysStamped(w: World, labels: seq<Label>)
    ensures StampsOk(Run(w, labels))
  {
    if labels != [] {
      AlwaysStamped(w, labels[..|labels| - 1]);
      StepKeepsStamps(w, Run(w, labels[..|labels| - 1]), labels[|labels| - 1]);
    }
  }

  /** An entry of this system is served to whoever reads it until `stale_ttl` after its write, and
      to nobody after that. */
  lemma ServedForStaleTtl(w: World, labels: seq<Label>, id: nat)
    requires Sane(w) && w.mode.Swr? && w.parse(w.payload).Some?
    requires var s := Run(w, labels);
      s.entry.Some? && !s.entry.value.origin.Foreign? && id in s.calls && s.calls[id].Asked?
    ensures var s := Run(w, labels);
      var c := Run(w, labels + [Get(id, Done)] + [Decide(id)]).calls;
      id in c && (if s.now < s.entry.value.writtenAt + 1000 * w.mode.staleTtl
                  then HitOf(c[id]) == Some(Hit(s.entry.value, s.now, s.now))
                  else c[id] == Computing(s.now))
  {
    hide Run, Dated, Step;
    var d := SomeDelays(w, labels);
    AlwaysDated(w, labels, d);
    RunOneMore(w, labels, Get(id, Done));
    RunOneMore(w, labels + [Get(id, Done)], Decide(id));
    LiveIsServed(w, Run(w, labels), id, d);
  }

  lemma LiveIsServed(w: World, s: State, id: nat, d: Delays)
    requires Sane(w) && w.mode.Swr? && w.parse(w.payload).Some?
    requires s.entry.Some? && !s.entry.value.origin.Foreign? && Dated(w, s.entry.value, d)
    requires id in s.calls && s.calls[id].Asked?
    ensures var c := Step(w, Step(w, s, Get(id, Done)), Decide(id)).calls;
      id in c && (if s.now < s.entry.value.writtenAt + 1000 * w.mode.staleTtl
                  then HitOf(c[id]) == Some(Hit(s.entry.value, s.now, s.now))
                  else c[id] == Computing(s.now))
  {
    var e := s.entry.value;
    assert e.expires == e.writtenAt + 1000 * w.mode.staleTtl;
    assert Decode(w, e.raw) == Some((e.stampedAt / 1000, w.parse(w.payload).value)) && e.raw != "";
    hide Decode, Kept, Encode, Sane;
  }

  /** How many seconds after its write the entry of an instant miss is past `ttl`, and gone. */
  function GoneAfter(w: World): int
    requires w.mode.Swr?
  {
    if w.mode.staleTtl > w.mode.ttl then w.mode.staleTtl else w.mode.ttl + 1
  }

  /** A value that is past `ttl`, and not by as much as `stale_ttl`, is gone. Nothing was dropped,
      and the next call has to wait for the function. */
  lemma StaleValueIsGoneEarly(w: World)
    requires Sane(w) && w.mode.Swr? && 0 < w.mode.ttl && 1 < w.mode.staleTtl && w.parse(w.payload).Some?
    ensures var labels := SlowMiss(0, 1000 * GoneAfter(w))[..11];
      var s := Run(w, labels);
      && Drop !in labels && !ServedAsDocumented(w, s)
      && 1 in s.calls && s.calls[1].Computing?
  {
    var d := Delays(0, 0);
    var labels := SlowMiss(0, 1000 * GoneAfter(w));
    var s := SlowMissIsAskedFor(w, 0, 1000 * GoneAfter(w));
    assert labels[9] == Get(1, Done) && labels[10] == Decide(1) && Drop !in labels[..11];
    ExpiredIsMissed(w, s, 1);
    NotServed(w, s.(calls := s.calls[1 := Computing(s.now)]));
    hide Step, SlowMiss, SlowEntry, ServedAsDocumented, Sane;
    var t := Step(w, s, labels[9]);
    Next(w, labels, 9, d, s, t);
    Next(w, labels, 10, d, t, Step(w, t, labels[10]));
  }

  lemma NotServed(w: World, s: State)
    requires Sane(w) && w.mode.Swr? && 0 < w.mode.ttl && 1 < w.mode.staleTtl && w.parse(w.payload).Some?
    requires s.entry == Some(SlowEntry(w, 0)) && s.now == 999 + 1000 * GoneAfter(w)
    ensures !ServedAsDocumented(w, s)
  {
    assert Decode(w, SlowEntry(w, 0).raw) == Some((0, w.parse(w.payload).value));
  }

  lemma ExpiredIsMissed(w: World, s: State, id: nat)
    requires s.entry.Some? && s.entry.value.expires <= s.now && id in s.calls && s.calls[id].Asked?
    ensures Step(w, Step(w, s, Get(id, Done)), Decide(id)) == s.(calls := s.calls[id := Computing(s.now)])
  {
    hide Decode;
  }

  /** The exact condition: the documented promise holds on every run if and only if `ttl` is not
      positive, or `stale_ttl` leaves no whole second, or nothing the cache keeps reads back. */
  lemma ServedAsDocumentedIff(w: World)
    requires Sane(w) && w.mode.Swr?
    ensures (forall labels :: ServedAsDocumented(w, Run(w, labels))) <==>
      w.mode.ttl <= 0 || w.mode.staleTtl <= 1 || w.parse(w.payload).None?
  {
    if w.mode.ttl <= 0 || w.mode.staleTtl <= 1 || w.parse(w.payload).None? {
      forall labels ensures ServedAsDocumented(w, Run(w, labels)) {
        ServedWhenInstant(w, labels);
      }
    } else {
      StaleValueIsGoneEarly(w);
    }
  }

  lemma ServedWhenInstant(w: World, labels: seq<Label>)
    requires Sane(w) && w.mode.Swr?
    requires w.mode.ttl <= 0 || w.mode.staleTtl <= 1 || w.parse(w.payload).None?
    ensures ServedAsDocumented(w, Run(w, labels))
  {
    hide Run;
    var d := SomeDelays(w, labels);
    AlwaysDated(w, labels, d);
    AlwaysStamped(w, labels);
  }
}
