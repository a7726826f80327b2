/** When background refreshes start, as opposed to when their locks are granted. */
module RefreshStarts {
  import opened Outcomes
  import opened Caches
  import opened CacheAges

  /** No refresh started later than `reply` milliseconds after its lock was granted. */
  ghost predicate RepliesWithin(s: State, reply: nat) {
    forall r | r in s.started :: ReplyDelay(s, r) <= reply
  }

  /** Any two refreshes started LOCK_TTL apart. */
  ghost predicate StartsSpaced(s: State) {
    forall i: nat, j: nat | i < j && i in s.started && j in s.started ::
      s.started[j] - s.started[i] >= LOCK_MS * (j - i)
  }

  /** A bound on the reply bounds how much closer than LOCK_TTL two starts may be. */
  lemma StartsNearlySpaced(w: World, labels: seq<Label>, reply: nat, i: nat, j: nat)
    requires RepliesWithin(Run(w, labels), reply)
    requires i < j && i in Run(w, labels).started && j in Run(w, labels).started
    ensures Run(w, labels).started[j] - Run(w, labels).started[i] >= LOCK_MS * (j - i) - reply
  {
    LockAlwaysOk(w, labels);
  }

  // --- Whether a refresh can start --------------------------------------------------------------

  /** The settings under which a refresh can start at all: the cache keeps values that read back,
      and tells their age. */
  predicate Refreshes(w: World) {
    w.mode.Swr? && w.mode.staleTtl > 0 && w.parse(w.payload).Some?
  }

  /** Otherwise no call ever asks for the lock. */
  lemma {:induction false} NoRefreshStarts(w: World, labels: seq<Label>)
    requires Sane(w) && !Refreshes(w)
    ensures Run(w, labels).granted == [] && Run(w, labels).started == map[]
  {
    if labels != [] {
      var before := labels[..|labels| - 1];
      NoRefreshStarts(w, before);
      LockAlwaysOk(w, before);
      forall id | id in Run(w, before).calls ensures !Run(w, before).calls[id].Locking? {
        NeverLocking(w, before, id);
      }
      NoGrantWithoutLocking(w, Run(w, before), labels[|labels| - 1]);
    }
  }

  lemma NeverLocking(w: World, labels: seq<Label>, id: nat)
    requires Sane(w) && !Refreshes(w) && id in Run(w, labels).calls
    ensures !Run(w, labels).calls[id].Locking?
  {
    hide Run;
    var d := SomeDelays(w, labels);
    AlwaysDated(w, labels, d);
    AlwaysTransparent(w, labels);
    AlwaysAsksRightly(w, labels, id);
    assert CallOk(w, Run(w, labels).calls[id]) && CallDated(w, Run(w, labels).calls[id], d);
  }

  lemma NoGrantWithoutLocking(w: World, s: State, l: Label)
    requires WinnersOk(s) && s.granted == [] && s.started == map[]
    requires forall id | id in s.calls :: !s.calls[id].Locking?
    ensures Step(w, s, l).granted == [] && Step(w, s, l).started == map[]
  {
    hide Written, AfterGet, Decode, Live;
    if l.HearLock? {
      assert Won(s, l.id).None?;
    }
  }

  // --- A slow reply -----------------------------------------------------------------------------

  /** How long a miss has to take for its entry to be old when it is stored. */
  function TooSlow(w: World): nat {
    if w.mode.ttl < 0 then 0 else w.mode.ttl + 1
  }

  /** After a miss that slow two calls read its entry. */
  function TwoOldHits(w: World): seq<Label> {
    SlowMiss(TooSlow(w), 0)[..7] +
    [Begin(1)] + [Get(1, Done)] + [Decide(1)] + [Begin(2)] + [Get(2, Done)] + [Decide(2)]
  }

  /** Of two calls that ask for a free lock, the first has its reply `reply` milliseconds late. */
  function SlowReply(reply: nat): seq<Label>
    requires reply <= LOCK_MS
  {
    [TakeLock(1, Done)] + [Tick(reply)] + [HearLock(1)] + [Tick(LOCK_MS - reply)] + [TakeLock(2, Done)] + [HearLock(2)]
  }

  /** Two calls ask for the lock, which nobody has ever held. */
  ghost predicate TwoAsk(w: World, s: State)
    requires Refreshes(w)
  {
    var stored := SlowlyStored(w, TooSlow(w));
    exists c: Call, d: Call :: c.Locking? && d.Locking? && s == stored.(calls := stored.calls[1 := c][2 := d])
  }

  lemma OldHitAsks(w: World, s: State, id: nat)
    requires Sane(w) && Refreshes(w) && id !in s.calls
    requires s.entry == Some(SlowEntry(w, TooSlow(w))) && s.now == 999 + 1000 * TooSlow(w)
    ensures var t := Step(w, Step(w, Step(w, s, Begin(id)), Get(id, Done)), Decide(id));
      exists c: Call :: c.Locking? && t == s.(calls := s.calls[id := c])
  {
    var e := SlowEntry(w, TooSlow(w));
    assert Decode(w, e.raw) == Some((0, w.parse(w.payload).value)) && e.raw != "";
    var t := s.(calls := s.calls[id := Got(Some(e), s.now)]);
    assert Step(w, Step(w, s, Begin(id)), Get(id, Done)) == t;
    var c := AfterGet(w, t, Some(e), s.now);
    assert c.Locking? && Step(w, t, Decide(id)) == s.(calls := s.calls[id := c]);
  }

  lemma TwoOldHitsAsk(w: World)
    requires Sane(w) && Refreshes(w)
    ensures TwoAsk(w, Run(w, TwoOldHits(w)))
  {
    var start := SlowMiss(TooSlow(w), 0)[..7];
    SlowMissIsStored(w, TooSlow(w), 0);
    var s := SlowlyStored(w, TooSlow(w));
    assert Run(w, start) == s;
    hide Run, Step, SlowMiss, SlowEntry;
    ThreeMore(w, start, Begin(1), Get(1, Done), Decide(1));
    OldHitAsks(w, s, 1);
    var c: Call :| c.Locking? && Run(w, start + [Begin(1)] + [Get(1, Done)] + [Decide(1)]) == s.(calls := s.calls[1 := c]);
    ThreeMore(w, start + [Begin(1)] + [Get(1, Done)] + [Decide(1)], Begin(2), Get(2, Done), Decide(2));
    OldHitAsks(w, s.(calls := s.calls[1 := c]), 2);
  }

  lemma SlowlyHeard(w: World, s: State, reply: nat)
    requires Refreshes(w) && TwoAsk(w, s) && reply <= LOCK_MS
    ensures var t := Step(w, Step(w, Step(w, s, TakeLock(1, Done)), Tick(reply)), HearLock(1));
      && t.now == s.now + reply && t.lock == Some(s.now + LOCK_MS) && 2 in t.calls && t.calls[2].Locking?
      && t.granted == [s.now] && t.started == map[0 := s.now + reply]
  {}

  lemma ThenHeard(w: World, s: State, t: State, reply: nat)
    requires reply <= LOCK_MS && t.now == s.now + reply && t.lock == Some(s.now + LOCK_MS)
    requires 2 in t.calls && t.calls[2].Locking? && t.granted == [s.now] && t.started == map[0 := s.now + reply]
    ensures var u := Step(w, Step(w, Step(w, t, Tick(LOCK_MS - reply)), TakeLock(2, Done)), HearLock(2));
      u.granted == [s.now, s.now + LOCK_MS] && u.started == map[0 := s.now + reply, 1 := s.now + LOCK_MS]
  {}

  /** Wherever refreshes start at all, a reply may bring two starts nearer by as much as it takes:
      one that takes LOCK_TTL lets two refreshes start at the same moment. */
  lemma SlowReplyStartsSooner(w: World, reply: nat)
    requires Sane(w) && Refreshes(w) && reply <= LOCK_MS
    ensures var s := Run(w, TwoOldHits(w) + SlowReply(reply));
      && s.started.Keys == {0, 1} && RepliesWithin(s, reply)
      && s.started[1] + reply == s.started[0] + LOCK_MS
  {
    TwoOldHitsAsk(w);
    var labels := TwoOldHits(w);
    var s := Run(w, labels);
    SlowReplyOneByOne(labels, reply);
    hide Run, Step, TwoOldHits, Refreshes, Sane, TwoAsk, SlowReply;
    var more := labels + [TakeLock(1, Done)] + [Tick(reply)] + [HearLock(1)];
    ThreeMore(w, labels, TakeLock(1, Done), Tick(reply), HearLock(1));
    SlowlyHeard(w, s, reply);
    ThreeMore(w, more, Tick(LOCK_MS - reply), TakeLock(2, Done), HearLock(2));
    ThenHeard(w, s, Run(w, more), reply);
  }

  lemma SlowReplyOneByOne(labels: seq<Label>, reply: nat)
    requires reply <= LOCK_MS
    ensures labels + [TakeLock(1, Done)] + [Tick(reply)] + [HearLock(1)]
            + [Tick(LOCK_MS - reply)] + [TakeLock(2, Done)] + [HearLock(2)] == labels + SlowReply(reply)
  {}

  /** The exact condition. When no reply takes longer than `reply`, refreshes always start LOCK_TTL
      apart if and only if replies take no time, or no refresh can start. */
  lemma StartsSpacedIff(w: World, reply: nat)
    requires Sane(w)
    ensures (forall labels :: RepliesWithin(Run(w, labels), reply) ==> StartsSpaced(Run(w, labels))) <==>
      reply == 0 || !Refreshes(w)
  {
    if reply == 0 || !Refreshes(w) {
      forall labels | RepliesWithin(Run(w, labels), reply) ensures StartsSpaced(Run(w, labels)) {
        if reply == 0 {
          LockAlwaysOk(w, labels);
        } else {
          NoRefreshStarts(w, labels);
        }
      }
    } else {
      var late := if reply <= LOCK_MS then reply else LOCK_MS;
      SlowReplyStartsSooner(w, late);
      var labels := TwoOldHits(w) + SlowReply(late);
      assert RepliesWithin(Run(w, labels), reply) && !StartsSpaced(Run(w, labels));
    }
  }
}
