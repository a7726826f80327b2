/** What the cache is for: what its commands store, for how long that is served, and how long the
    refresh lock is held. */
module CacheHits {
  import opened Outcomes
  import opened Caches
  import opened CacheAges

  // --- What is stored ---------------------------------------------------------------------------

  /** The SET at the end of a miss stores the answer for `ttl` seconds, or the stamped answer for
      `stale_ttl`, counted from now; when that is not positive or Redis refuses, nothing changes. */
  lemma StoreKeeps(w: World, s: State, id: nat, reply: Reply)
    requires id in s.calls && s.calls[id].Storing?
    ensures var stamp := s.calls[id].stampedAt;
      var after := Step(w, s, Store(id, reply)).entry;
      match w.mode
      case Plain(ttl) =>
        after == if ttl > 0 && reply != Failed then Some(Entry(w.payload, s.now + 1000 * ttl, Miss, stamp, s.now))
                 else s.entry
      case Swr(_, staleTtl) =>
        after == if staleTtl > 0 && reply != Failed
                 then Some(Entry(w.pack(stamp / 1000, w.payload), s.now + 1000 * staleTtl, Miss, stamp, s.now))
                 else s.entry
  {}

  /** So does the SET of a refresh, with the stamp it took when its function had answered. */
  lemma RefreshKeeps(w: World, s: State, rid: nat, reply: Reply, ttl: int, staleTtl: int)
    requires w.mode == Swr(ttl, staleTtl) && rid in s.refreshes
    ensures s.refreshes[rid].Running? ==> Step(w, s, RefreshCompute(rid, true)).refreshes == s.refreshes[rid := Stamped(s.now)]
    ensures s.refreshes[rid].Stamped? ==>
      var stamp := s.refreshes[rid].stampedAt;
      Step(w, s, RefreshStore(rid, reply)).entry ==
        if staleTtl > 0 && reply != Failed
        then Some(Entry(w.pack(stamp / 1000, w.payload), s.now + 1000 * staleTtl, Refreshed, stamp, s.now))
        else s.entry
  {}

  /** An entry that does not decode is deleted, unless Redis refuses. */
  lemma InvalidateEmpties(w: World, s: State, id: nat, reply: Reply)
    requires id in s.calls && s.calls[id].Invalidating?
    ensures Step(w, s, Invalidate(id, reply)).entry == if reply == Failed then s.entry else None
  {}

  /** A call that reads after an invalidation, or whose GET fails, goes to the function. */
  lemma NothingIsMissed(w: World, s: State, id: nat, reply: Reply)
    requires id in s.calls && s.calls[id].Asked?
    ensures var t := Step(w, s, Drop);
      Step(w, Step(w, t, Get(id, reply)), Decide(id)).calls == s.calls[id := Computing(s.now)]
    ensures reply != Done ==>
      Step(w, Step(w, s, Get(id, reply)), Decide(id)).calls == s.calls[id := Computing(s.now)]
  {
    hide Decode;
  }

  /** A call that reads what does not decode asks for its deletion first. */
  lemma ForeignIsInvalidated(w: World, s: State, id: nat, raw: string, expires: nat)
    requires id in s.calls && s.calls[id].Asked? && raw != "" && Decode(w, raw).None? && s.now < expires
    ensures var t := Step(w, s, ForeignWrite(raw, expires));
      Step(w, Step(w, t, Get(id, Done)), Decide(id)).calls == s.calls[id := Invalidating(s.now)]
  {
    hide Decode;
  }

  // --- Plain caching ----------------------------------------------------------------------------

  /** On every run, an entry of the cache is served without the function to whoever reads it until
      `ttl` after its write, and to nobody after that. */
  lemma PlainServedForTtl(w: World, labels: seq<Label>, id: nat, ttl: int)
    requires Sane(w) && w.mode == Plain(ttl) && w.parse(w.payload).Some?
    requires var s := Run(w, labels);
      s.entry.Some? && !s.entry.value.origin.Foreign? && id in s.calls && s.calls[id].Asked?
    ensures var s := Run(w, labels);
      var t := Run(w, labels + [Get(id, Done)] + [Decide(id)]);
      t.calls == s.calls[id :=
        if s.now < s.entry.value.writtenAt + 1000 * ttl
        then Returned(w.parse(w.payload).value, Some(Hit(s.entry.value, s.now, s.now)))
        else Computing(s.now)]
  {
    hide Run, Dated, Step;
    var d := SomeDelays(w, labels);
    AlwaysDated(w, labels, d);
    RunOneMore(w, labels, Get(id, Done));
    RunOneMore(w, labels + [Get(id, Done)], Decide(id));
    LiveIsReturned(w, Run(w, labels), id, d, ttl);
  }

  lemma LiveIsReturned(w: World, s: State, id: nat, d: Delays, ttl: int)
    requires Sane(w) && w.mode == Plain(ttl) && w.parse(w.payload).Some?
    requires s.entry.Some? && !s.entry.value.origin.Foreign? && Dated(w, s.entry.value, d)
    requires id in s.calls && s.calls[id].Asked?
    ensures Step(w, Step(w, s, Get(id, Done)), Decide(id)).calls == s.calls[id :=
        if s.now < s.entry.value.writtenAt + 1000 * ttl
        then Returned(w.parse(w.payload).value, Some(Hit(s.entry.value, s.now, s.now)))
        else Computing(s.now)]
  {
    var e := s.entry.value;
    assert e.expires == e.writtenAt + 1000 * ttl;
    assert Decode(w, e.raw) == Some((0, w.parse(w.payload).value)) && e.raw != "";
    hide Decode, Kept, Encode, Sane;
  }

  /** A call misses and stores; `wait` milliseconds later a second call reads. */
  function TwoCalls(wait: nat): seq<Label> {
    [] + [Begin(0)] + [Get(0, Done)] + [Decide(0)] + [Compute(0, true)] + [Store(0, Done)] + [Tick(wait)] +
    [Begin(1)] + [Get(1, Done)] + [Decide(1)]
  }

  /** A second call less than `ttl` after the first has the first one's answer, whatever the function
      would do by then; a later one goes to the function. */
  lemma SecondCallIsServed(w: World, ttl: int, wait: nat)
    requires Sane(w) && w.mode == Plain(ttl) && ttl > 0 && w.parse(w.payload).Some?
    ensures var s := Run(w, TwoCalls(wait));
      && 1 in s.calls
      && (if wait < 1000 * ttl then s.calls[1].Returned? && s.calls[1].value == w.parse(w.payload).value
          else s.calls[1].Computing?)
  {
    hide Run, Step;
    var first := [] + [Begin(0)] + [Get(0, Done)] + [Decide(0)];
    var stored := first + [Compute(0, true)] + [Store(0, Done)] + [Tick(wait)];
    RunNothing(w);
    ThreeMore(w, [], Begin(0), Get(0, Done), Decide(0));
    ThreeMore(w, first, Compute(0, true), Store(0, Done), Tick(wait));
    ThreeMore(w, stored, Begin(1), Get(1, Done), Decide(1));
    FirstCallStores(w, ttl, wait);
    var s := Run(w, stored);
    SecondCallReads(w, s, ttl);
  }

  lemma RunNothing(w: World)
    ensures Run(w, []) == INIT
  {}

  lemma FirstCallStores(w: World, ttl: int, wait: nat)
    requires w.mode == Plain(ttl) && ttl > 0 && w.parse(w.payload).Some?
    ensures var s := Step(w, Step(w, Step(w, INIT, Begin(0)), Get(0, Done)), Decide(0));
      var t := Step(w, Step(w, Step(w, s, Compute(0, true)), Store(0, Done)), Tick(wait));
      t == INIT.(now := wait, entry := Some(Entry(w.payload, 1000 * ttl, Miss, 0, 0)),
                 calls := map[0 := Returned(w.parse(w.payload).value, None)])
  {
    var s := INIT.(calls := map[0 := Computing(0)]);
    assert Step(w, Step(w, Step(w, INIT, Begin(0)), Get(0, Done)), Decide(0)) == s;
  }

  lemma SecondCallReads(w: World, s: State, ttl: int)
    requires Sane(w) && w.mode == Plain(ttl) && ttl > 0 && w.parse(w.payload).Some?
    requires s.entry == Some(Entry(w.payload, 1000 * ttl, Miss, 0, 0)) && 1 !in s.calls
    ensures var t := Step(w, Step(w, Step(w, s, Begin(1)), Get(1, Done)), Decide(1));
      && 1 in t.calls
      && (if s.now < 1000 * ttl then t.calls[1].Returned? && t.calls[1].value == w.parse(w.payload).value
          else t.calls[1].Computing?)
  {}

  // --- The lock ---------------------------------------------------------------------------------

  /** Of two calls that ask for a free lock, the first gets it, unless Redis refuses or the reply is
      lost; the second gets it too exactly when Redis had refused or it asks ten seconds later or more. */
  lemma LockIsHeldTenSeconds(w: World, s: State, a: nat, b: nat, reply: Reply, wait: nat)
    requires a != b && a in s.calls && b in s.calls && s.calls[a].Locking? && s.calls[b].Locking?
    requires s.lock.None? || s.now >= s.lock.value
    ensures var t := Step(w, s, TakeLock(a, reply));
      var u := Step(w, Step(w, t, Tick(wait)), TakeLock(b, Done));
      && Won(t, a) == (if reply == Done then Some(|s.granted|) else None)
      && Won(u, b) == (if reply == Failed || wait >= 10000 then Some(|t.granted|) else None)
  {}
}
