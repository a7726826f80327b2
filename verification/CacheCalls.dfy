/** The cache's methods in their own order of statements, each shown to be a run of the step
    system: at every await the other calls, refreshes, clients and the clock take any steps. */
module CacheCalls {
  import opened Outcomes
  import opened Caches

  /** What the world does during one call: how each Redis command answers, whether the function
      succeeds, and the steps of everyone else while the call waits for each of them. */
  datatype Surroundings = Surroundings(
    get: Reply, invalidate: Reply, lock: Reply, store: Reply, functionSucceeds: bool,
    others: map<Wait, seq<Label>>)
  {
    function During(at: Wait): seq<Label> {
      if at in others then others[at] else []
    }
  }

  datatype Wait = ForGet | ForReply | ForDelete | ForFunction | ForSet | ForSetReply | ForLock | ForLockReply

  /** The label is no step of call `id`. */
  predicate Elsewhere(l: Label, id: nat) {
    match l
    case Begin(i) => i != id
    case Get(i, _) => i != id
    case Decide(i) => i != id
    case Invalidate(i, _) => i != id
    case Compute(i, _) => i != id
    case Store(i, _) => i != id
    case TakeLock(i, _) => i != id
    case HearLock(i) => i != id
    case _ => true
  }

  predicate AllElsewhere(env: Surroundings, id: nat) {
    forall at | at in env.others :: forall l | l in env.others[at] :: Elsewhere(l, id)
  }

  /** Call `id` stands at `c`. */
  predicate Stands(s: State, id: nat, c: Call) {
    id in s.calls && s.calls[id] == c
  }

  lemma OthersLeaveTheCall(w: World, s: State, l: Label, id: nat)
    requires Elsewhere(l, id)
    ensures id in s.calls <==> id in Step(w, s, l).calls
    ensures id in s.calls ==> Step(w, s, l).calls[id] == s.calls[id]
  {
    hide Written, AfterGet, Live;
  }

  /** The steps of call `id` among these, in order: its commands, with how each was answered. */
  ghost function OwnSteps(labels: seq<Label>, id: nat): seq<Label> {
    if labels == [] then []
    else
      var last := labels[|labels| - 1];
      OwnSteps(labels[..|labels| - 1], id) + if Elsewhere(last, id) then [] else [last]
  }

  lemma OwnStepsNext(labels: seq<Label>, l: Label, id: nat)
    ensures OwnSteps(labels + [l], id) == OwnSteps(labels, id) + if Elsewhere(l, id) then [] else [l]
  {
    assert (labels + [l])[..|labels|] == labels;
  }

  /** `found` is what the GET of call `id`, at or after place `from` of the run, came back with. */
  ghost predicate FoundBy(w: World, trace: seq<Label>, from: nat, id: nat, reply: Reply, found: Option<Entry>) {
    exists k :: from <= k < |trace| && trace[k] == Get(id, reply) && found == Answered(w, trace[..k], reply)
  }

  /** A GET comes back with the entry if there is one that has not expired, or with nothing. */
  ghost function Answered(w: World, before: seq<Label>, reply: Reply): Option<Entry> {
    var s := Run(w, before);
    if reply == Done && s.entry.Some? && s.now < s.entry.value.expires then s.entry else None
  }

  lemma StillFound(w: World, trace: seq<Label>, more: seq<Label>, from: nat, id: nat, reply: Reply, found: Option<Entry>)
    requires FoundBy(w, trace, from, id, reply, found) && trace <= more
    ensures FoundBy(w, more, from, id, reply, found)
  {
    var k :| from <= k < |trace| && trace[k] == Get(id, reply) && found == Answered(w, trace[..k], reply);
    assert more[..k] == trace[..k] && more[k] == trace[k];
  }

  /** The label is no step of background refresh `rid`. */
  predicate ElsewhereInBackground(l: Label, rid: nat) {
    match l
    case RefreshCompute(r, _) => r != rid
    case RefreshStore(r, _) => r != rid
    case RefreshEnd(r) => r != rid
    case _ => true
  }

  lemma OthersLeaveTheRefresh(w: World, s: State, l: Label, rid: nat)
    requires LockOk(s) && ElsewhereInBackground(l, rid) && rid in s.refreshes
    ensures rid in Step(w, s, l).refreshes && Step(w, s, l).refreshes[rid] == s.refreshes[rid]
  {
    hide Written, AfterGet, Live, GrantsOk;
    match l
    case HearLock(id) =>
      assert Won(s, id).Some? ==> Won(s, id).value !in s.started;
    case _ =>
  }

  class Cache {
    const w: World
    var state: State
    ghost var trace: seq<Label>

    /** The present state is the one its history leads to. */
    ghost predicate Valid()
      reads this
    {
      state == Run(w, trace)
    }

    constructor (w: World)
      ensures Valid() && this.w == w && state == INIT
    {
      this.w := w;
      state := INIT;
      trace := [];
    }

    /** One atomic step. */
    method Do(l: Label, ghost id: nat)
      requires Valid()
      modifies this
      ensures Valid() && trace == old(trace) + [l] && state == Step(w, old(state), l)
      ensures OwnSteps(trace, id) == OwnSteps(old(trace), id) + if Elsewhere(l, id) then [] else [l]
    {
      OwnStepsNext(trace, l, id);
      state := Step(w, state, l);
      trace := trace + [l];
      assert trace[..|trace| - 1] == old(trace);
    }

    /** Everyone else goes on while call `id` waits. */
    method Await(id: nat, others: seq<Label>)
      requires Valid()
      requires forall l | l in others :: Elsewhere(l, id)
      modifies this
      ensures Valid() && old(trace) <= trace && OwnSteps(trace, id) == OwnSteps(old(trace), id)
      ensures id in state.calls <==> id in old(state).calls
      ensures id in state.calls ==> state.calls[id] == old(state).calls[id]
    {
      for i := 0 to |others|
        invariant Valid() && old(trace) <= trace && OwnSteps(trace, id) == OwnSteps(old(trace), id)
        invariant id in state.calls <==> id in old(state).calls
        invariant id in state.calls ==> state.calls[id] == old(state).calls[id]
      {
        OthersLeaveTheCall(w, state, others[i], id);
        Do(others[i], id);
      }
    }

    /** The part of both fetches after a miss: compute, store, answer. */
    method Compute(id: nat, env: Surroundings, ghost stampedAt: nat) returns (r: Option<Answer>)
      requires Valid() && AllElsewhere(env, id) && Stands(state, id, Computing(stampedAt))
      modifies this
      ensures Valid() && old(trace) <= trace
      ensures r == if env.functionSucceeds then w.parse(w.payload) else None
      ensures Stands(state, id, if r.Some? then Returned(r.value, None) else Raised)
      ensures OwnSteps(trace, id) == OwnSteps(old(trace), id) + [Label.Compute(id, env.functionSucceeds)]
                                     + if env.functionSucceeds then [Store(id, env.store)] else []
    {
      hide Written, OwnSteps;
      Await(id, env.During(ForFunction));
      Do(Label.Compute(id, env.functionSucceeds), id);
      if !env.functionSucceeds {
        return None;
      }
      Await(id, env.During(ForSet));
      Do(Store(id, env.store), id);
      r := w.parse(w.payload);
    }

    /** Both fetches begin with a GET, and read the clock when its reply is in. */
    method Look(id: nat, env: Surroundings) returns (entry: Option<Entry>)
      requires Valid() && id !in state.calls && AllElsewhere(env, id)
      modifies this
      ensures Valid() && old(trace) <= trace
      ensures exists readAt: nat :: Stands(state, id, AfterGet(w, state, entry, readAt))
      ensures FoundBy(w, trace, |old(trace)|, id, env.get, entry)
      ensures OwnSteps(trace, id) == OwnSteps(old(trace), id) + [Begin(id), Get(id, env.get), Decide(id)]
    {
      hide OwnSteps, FoundBy, Run;
      ghost var readAt: nat;
      entry, readAt := Ask(id, env);
      ghost var asked := trace;
      Await(id, env.During(ForReply));
      Do(Decide(id), id);
      StillFound(w, asked, trace, |old(trace)|, id, env.get, entry);
      assert Stands(state, id, AfterGet(w, state, entry, readAt));
    }

    /** The GET itself. */
    method Ask(id: nat, env: Surroundings) returns (entry: Option<Entry>, ghost readAt: nat)
      requires Valid() && id !in state.calls && AllElsewhere(env, id)
      modifies this
      ensures Valid() && old(trace) <= trace && Stands(state, id, Got(entry, readAt))
      ensures FoundBy(w, trace, |old(trace)|, id, env.get, entry)
      ensures OwnSteps(trace, id) == OwnSteps(old(trace), id) + [Begin(id), Get(id, env.get)]
    {
      hide OwnSteps, Run;
      Do(Begin(id), id);
      Await(id, env.During(ForGet));
      ghost var before := trace;
      Do(Get(id, env.get), id);
      readAt := state.now;
      entry := state.calls[id].entry;
      assert trace[|before|] == Get(id, env.get) && trace[..|before|] == before && entry == Answered(w, before, env.get);
    }

    method FetchOrSet(id: nat, env: Surroundings) returns (r: Option<Answer>, ghost found: Option<Entry>)
      requires Valid() && Sane(w) && w.mode.Plain? && id !in state.calls && AllElsewhere(env, id)
      modifies this
      ensures Valid() && old(trace) <= trace
      ensures id in state.calls
      ensures if r.Some? then state.calls[id].Returned? && state.calls[id].value == r.value else state.calls[id].Raised?
      ensures r == w.parse(w.payload) || (!env.functionSucceeds && r == None)
      ensures FoundBy(w, trace, |old(trace)|, id, env.get, found)
      ensures var present := found.Some? && found.value.raw != "";
        var hit := present && w.parse(found.value.raw).Some?;
        && r == (if hit then w.parse(found.value.raw) else if env.functionSucceeds then w.parse(w.payload) else None)
        && OwnSteps(trace, id) == OwnSteps(old(trace), id) + [Begin(id), Get(id, env.get), Decide(id)] +
             if hit then []
             else (if present then [Invalidate(id, env.invalidate)] else []) +
                  [Label.Compute(id, env.functionSucceeds)] + if env.functionSucceeds then [Store(id, env.store)] else []
    {
      hide Run, OwnSteps, FoundBy;
      var entry := Look(id, env);
      found := entry;
      ghost var looked := trace;
      var now := state.now;
      if entry.Some? && entry.value.raw != "" {
        match w.parse(entry.value.raw) {
          case Some(value) =>
            AlwaysTransparent(w, trace);
            r := Some(value);
            return;
          case None =>
            Await(id, env.During(ForDelete));
            Do(Invalidate(id, env.invalidate), id);
        }
      }
      r := Compute(id, env, now);
      StillFound(w, looked, trace, |old(trace)|, id, env.get, found);
    }

    /** `_refresh_in_background` until the refresh runs on its own. */
    method RefreshInBackground(id: nat, env: Surroundings, value: Answer, hit: Hit)
      requires Valid() && AllElsewhere(env, id) && Stands(state, id, Locking(value, hit))
      modifies this
      ensures Valid() && old(trace) <= trace && Stands(state, id, Returned(value, Some(hit)))
      ensures OwnSteps(trace, id) == OwnSteps(old(trace), id) + [TakeLock(id, env.lock), HearLock(id)]
    {
      hide Run, OwnSteps, AfterGet, Written, Live;
      Await(id, env.During(ForLock));
      Do(TakeLock(id, env.lock), id);
      Await(id, env.During(ForLockReply));
      Do(HearLock(id), id);
    }

    method FetchSwr(id: nat, env: Surroundings) returns (r: Option<Answer>, ghost found: Option<Entry>)
      requires Valid() && Sane(w) && w.mode.Swr? && id !in state.calls && AllElsewhere(env, id)
      modifies this
      ensures Valid() && old(trace) <= trace
      ensures id in state.calls
      ensures if r.Some? then state.calls[id].Returned? && state.calls[id].value == r.value else state.calls[id].Raised?
      ensures r == w.parse(w.payload) || (!env.functionSucceeds && r == None)
      ensures id in AskedForLock(w, trace) <==>
        state.calls[id].Returned? && state.calls[id].from.Some? && IsOld(w, state.calls[id].from.value)
      ensures FoundBy(w, trace, |old(trace)|, id, env.get, found)
      ensures var present := found.Some? && found.value.raw != "";
        var hit := present && w.unpack(found.value.raw).Some? && w.parse(w.unpack(found.value.raw).value.1).Some?;
        && r == (if hit then w.parse(w.unpack(found.value.raw).value.1)
                 else if env.functionSucceeds then w.parse(w.payload) else None)
        && OwnSteps(trace, id) == OwnSteps(old(trace), id) + [Begin(id), Get(id, env.get), Decide(id)] +
             if hit then (if id in AskedForLock(w, trace) then [TakeLock(id, env.lock), HearLock(id)] else [])
             else (if present then [Invalidate(id, env.invalidate)] else []) +
                  [Label.Compute(id, env.functionSucceeds)] + if env.functionSucceeds then [Store(id, env.store)] else []
    {
      hide Run, AskedForLock, OwnSteps, FoundBy;
      var entry := Look(id, env);
      found := entry;
      ghost var looked := trace;
      var now := state.now;
      if entry.Some? && entry.value.raw != "" {
        var payload := w.unpack(entry.value.raw);
        var value := if payload.Some? then w.parse(payload.value.1) else None;
        if value.Some? {
          var age := now / 1000 - payload.value.0;
          if age > w.mode.ttl {
            RefreshInBackground(id, env, value.value, state.calls[id].hit);
          }
          AlwaysTransparent(w, trace);
          AlwaysAsksRightly(w, trace, id);
          StillFound(w, looked, trace, |old(trace)|, id, env.get, found);
          r := value;
          return;
        }
        Await(id, env.During(ForDelete));
        Do(Invalidate(id, env.invalidate), id);
      }
      r := Compute(id, env, now);
      StillFound(w, looked, trace, |old(trace)|, id, env.get, found);
      AlwaysAsksRightly(w, trace, id);
    }

    /** Everyone else goes on while refresh `rid` waits. */
    method AwaitInBackground(rid: nat, others: seq<Label>)
      requires Valid() && rid in state.refreshes
      requires forall l | l in others :: ElsewhereInBackground(l, rid)
      modifies this
      ensures Valid() && old(trace) <= trace
      ensures rid in state.refreshes && state.refreshes[rid] == old(state).refreshes[rid]
    {
      for i := 0 to |others|
        invariant Valid() && old(trace) <= trace
        invariant rid in state.refreshes && state.refreshes[rid] == old(state).refreshes[rid]
      {
        LockAlwaysOk(w, trace);
        OthersLeaveTheRefresh(w, state, others[i], rid);
        Do(others[i], 0);
      }
    }

    /** The body of a background refresh whose lock has been won: it ends with the write, or
        with the function's failure, and leaves nothing behind. */
    method Refresh(rid: nat, env: Surroundings)
      requires Valid() && rid in state.refreshes && state.refreshes[rid].Running?
      requires forall at | at in env.others :: forall l | l in env.others[at] :: ElsewhereInBackground(l, rid)
      modifies this
      ensures Valid() && old(trace) <= trace && old(trace) != trace
      ensures rid !in state.refreshes
      ensures trace[|trace| - 1] == if env.functionSucceeds then RefreshEnd(rid) else RefreshCompute(rid, false)
      ensures env.functionSucceeds ==> RefreshStore(rid, env.store) in trace[|old(trace)|..]
    {
      hide Run, Written, OwnSteps, Elsewhere, Decode, Live;
      AwaitInBackground(rid, env.During(ForFunction));
      Do(RefreshCompute(rid, env.functionSucceeds), 0);
      if env.functionSucceeds {
        AwaitInBackground(rid, env.During(ForSet));
        ghost var before := trace;
        Do(RefreshStore(rid, env.store), 0);
        ghost var stored := trace;
        AwaitInBackground(rid, env.During(ForSetReply));
        Do(RefreshEnd(rid), 0);
        assert stored[|before|] == trace[|old(trace)|..][|before| - |old(trace)|];
      }
    }
  }
}
