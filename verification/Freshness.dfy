/** Exactly when a served result can miss a change the listener has covered. */
module Freshness {
  import opened Options
  import opened Serving
  import Lru
  import opened NormalizeQuery

  // ---- What can go stale ----

  /** The version lacks the change of some event covered at the last invalidation. */
  ghost predicate MissesCovered(w: World, version: nat) {
    exists p :: p in w.covered && p in w.events && version < w.events[p]
  }

  /** The oldest data a query in flight may turn out to reflect. */
  function OldestReflected(h: Handler): nat {
    match h
    case Executing(_, _, _, startVersion) => startVersion
    case Storing(a) => a.reflects
  }

  /** A query that may store its result is in flight and may have read the data before some covered change. */
  ghost predicate QueryBehind(w: World) {
    exists id :: id in w.handlers && MayStore(w.handlers[id]) && MissesCovered(w, OldestReflected(w.handlers[id]))
  }

  ghost predicate EntryBehind(w: World) {
    exists i :: 0 <= i < |w.cache.slots| && MissesCovered(w, w.cache.slots[i].value.answer.reflects)
  }

  /** A lookup of the query would be a hit that misses a covered change. */
  ghost predicate StaleHit(config: Config, w: World, query: string, now: nat) {
    Hit(config, w, query, 0, now).Some? && MissesCovered(w, Hit(config, w, query, 0, now).value.answer.reflects)
  }

  /** After the run and then `more`, with no invalidation in between, a stale hit is served. */
  ghost predicate ServesStaleAfter(config: Config, steps: seq<Step>, more: seq<Step>, query: string, now: nat) {
    && Run(config, steps).Some? && Run(config, steps + more).Some?
    && Run(config, steps + more).value.epoch == Run(config, steps).value.epoch
    && StaleHit(config, Run(config, steps + more).value, query, now)
  }

  ghost predicate CanServeStale(config: Config, steps: seq<Step>) {
    exists more, query, now :: ServesStaleAfter(config, steps, more, query, now)
  }

  // ---- A clean world stays clean until the next invalidation ----

  /** What a version that is no older than all covered changes cannot miss. */
  lemma CurrentMissesNothing(w: World, version: nat)
    requires EventsOk(w) && version >= w.floor
    ensures !MissesCovered(w, version)
  {
  }

  /** A step that is no invalidation covers nothing new and changes no covered event. */
  lemma MissesNoMore(config: Config, w: World, step: Step, version: nat)
    requires EventsOk(w) && Next(config, w, step).Some? && !Invalidates(w, step)
    ensures MissesCovered(Next(config, w, step).value, version) <==> MissesCovered(w, version)
  {
    hide Lru.Get, Lru.Set, IsCacheable, Normalize;
    var w' := Next(config, w, step).value;
    assert w'.covered == w.covered && forall p | p in w.events :: p in w'.events && w'.events[p] == w.events[p];
  }

  /** A handler that may store is an old one, no older in what it reflects, or has just started. */
  lemma HandlerIsNoOlder(config: Config, w: World, step: Step, id: nat)
    requires Next(config, w, step).Some? && id in Next(config, w, step).value.handlers
    requires MayStore(Next(config, w, step).value.handlers[id])
    ensures var h := Next(config, w, step).value.handlers[id];
      || (id in w.handlers && MayStore(w.handlers[id]) && OldestReflected(w.handlers[id]) <= OldestReflected(h))
      || OldestReflected(h) == w.version
  {
    hide Lru.Get, Lru.Set, IsCacheable, Normalize;
  }

  lemma MissesMonotone(w: World, version: nat, newer: nat)
    requires version <= newer && MissesCovered(w, newer)
    ensures MissesCovered(w, version)
  {
  }

  lemma StepStaysClean(config: Config, w: World, step: Step)
    requires Inv(config, w) && Next(config, w, step).Some? && !Invalidates(w, step)
    requires !QueryBehind(w) && !EntryBehind(w)
    ensures !QueryBehind(Next(config, w, step).value) && !EntryBehind(Next(config, w, step).value)
  {
    var w' := Next(config, w, step).value;
    hide Next, Invalidates, MissesCovered, HandlerOk, SlotOk, MayStore, Lru.Distinct;
    forall id | id in w'.handlers && MayStore(w'.handlers[id]) ensures !MissesCovered(w', OldestReflected(w'.handlers[id])) {
      var oldest := OldestReflected(w'.handlers[id]);
      MissesNoMore(config, w, step, oldest);
      HandlerIsNoOlder(config, w, step, id);
      if oldest == w.version {
        CurrentMissesNothing(w, oldest);
      } else if MissesCovered(w, oldest) {
        MissesMonotone(w, OldestReflected(w.handlers[id]), oldest);
      }
    }
    forall i | 0 <= i < |w'.cache.slots| ensures !MissesCovered(w', w'.cache.slots[i].value.answer.reflects) {
      SlotOrigin(config, w, step, i);
      var a := w'.cache.slots[i].value.answer;
      MissesNoMore(config, w, step, a.reflects);
      if a.handler in w.handlers && w.handlers[a.handler] == Storing(a) {
        StoringMayStore(w.handlers[a.handler]);
      }
    }
  }

  lemma StoringMayStore(h: Handler)
    requires h.Storing?
    ensures MayStore(h) && OldestReflected(h) == h.answer.reflects
  {
  }

  lemma {:induction false} RunStaysClean(config: Config, steps: seq<Step>, more: seq<Step>)
    requires Run(config, steps).Some? && Run(config, steps + more).Some?
    requires !QueryBehind(Run(config, steps).value) && !EntryBehind(Run(config, steps).value)
    ensures Run(config, steps + more).value.epoch >= Run(config, steps).value.epoch
    ensures var w := Run(config, steps + more).value;
      w.epoch == Run(config, steps).value.epoch ==> !QueryBehind(w) && !EntryBehind(w)
  {
    hide QueryBehind, EntryBehind, Next, Invalidates, Inv;
    if more == [] {
      assert steps + more == steps;
    } else {
      var init, step := more[..|more| - 1], more[|more| - 1];
      assert (steps + more)[..|steps + more| - 1] == steps + init && (steps + more)[|steps + more| - 1] == step;
      RunStaysClean(config, steps, init);
      RunKeepsInv(config, steps + init);
      var w := Run(config, steps + init).value;
      EpochGrows(config, w, step);
      if !Invalidates(w, step) && w.epoch == Run(config, steps).value.epoch {
        StepStaysClean(config, w, step);
      }
    }
  }

  lemma CleanWorldServesNothingStale(config: Config, w: World, query: string, now: nat)
    requires !EntryBehind(w)
    ensures !StaleHit(config, w, query, now)
  {
    hide Lru.Get, IsCacheable, Normalize, MissesCovered;
    if Hit(config, w, query, 0, now).Some? {
      var i := HitIsASlot(config, w, query, 0, now);
    }
  }

  // ---- From a stale source a stale hit is near ----

  lemma FoundWhereDistinct<V>(slots: seq<Lru.Slot<V>>, i: nat)
    requires Lru.Distinct(slots) && i < |slots|
    ensures Lru.Find(slots, slots[i].key) == Some(i)
  {
    hide Lru.Find;
    var found := Lru.Find(slots, slots[i].key);
    assert found.Some? && slots[found.value].key == slots[i].key;
  }

  /** An entry that is behind is a hit of its own query, at the time it was stored. */
  lemma EntryBehindIsServed(config: Config, steps: seq<Step>)
    requires Run(config, steps).Some? && EntryBehind(Run(config, steps).value)
    ensures CanServeStale(config, steps)
  {
    hide Run, Next, IsCacheable, Normalize, MissesCovered, Lru.Distinct, EventsOk, HandlerOk;
    RunKeepsInv(config, steps);
    var w := Run(config, steps).value;
    var i :| 0 <= i < |w.cache.slots| && MissesCovered(w, w.cache.slots[i].value.answer.reflects);
    var slot := w.cache.slots[i];
    assert SlotOk(config, w, slot);
    FoundWhereDistinct(w.cache.slots, i);
    assert steps + [] == steps;
    assert ServesStaleAfter(config, steps, [], slot.value.answer.query, slot.insertedAt);
  }

  /** A query about to store an answer that is behind stores it in front of the cache, where the next lookup finds it. */
  lemma StoredBehindIsServed(config: Config, steps: seq<Step>, more: seq<Step>, w: World, id: nat)
    requires Run(config, steps).Some? && Run(config, steps + more) == Some(w) && w.epoch == Run(config, steps).value.epoch
    requires id in w.handlers && w.handlers[id].Storing? && MissesCovered(w, w.handlers[id].answer.reflects)
    ensures CanServeStale(config, steps)
  {
    hide Run, IsCacheable, Normalize, Lru.Distinct, EventsOk, SlotOk;
    RunKeepsInv(config, steps + more);
    var a := w.handlers[id].answer;
    assert HandlerOk(w, id, w.handlers[id]);
    var key := Normalize(config.parse, a.query);
    Lru.SetGoesToFront(config.limits, w.cache, key, Cached(a, w.epoch, 0), 0);
    var w' := Next(config, w, Store(id, 0)).value;
    Then(config, steps + more, w, Store(id, 0), w');
    assert (steps + more) + [Store(id, 0)] == steps + (more + [Store(id, 0)]);
    assert Lru.Find(w'.cache.slots, key) == Some(0);
    assert Hit(config, w', a.query, 0, 0) == Some(Cached(a, w.epoch, 0));
    assert ServesStaleAfter(config, steps, more + [Store(id, 0)], a.query, 0);
  }

  function Finished(w: World, id: nat, h: Handler): World
    requires h.Executing?
  {
    w.(handlers := w.handlers[id := Storing(Answer(h.query, id, h.startEpoch, h.startVersion))])
  }

  /** An executing query may find the data as it was when it started. */
  lemma FinishesBehind(config: Config, w: World, id: nat)
    requires Inv(config, w) && id in w.handlers && w.handlers[id].Executing? && w.handlers[id].cacheable
    ensures Next(config, w, Finish(id, w.handlers[id].startVersion)) == Some(Finished(w, id, w.handlers[id]))
  {
    assert HandlerOk(w, id, w.handlers[id]);
  }

  lemma MissesTheSame(w: World, w': World, version: nat)
    requires w'.covered == w.covered && w'.events == w.events
    ensures MissesCovered(w', version) <==> MissesCovered(w, version)
  {
  }

  lemma QueryBehindIsServed(config: Config, steps: seq<Step>)
    requires Run(config, steps).Some? && QueryBehind(Run(config, steps).value)
    ensures CanServeStale(config, steps)
  {
    hide Run, Next, Inv, CanServeStale, MissesCovered;
    var w := Run(config, steps).value;
    var id :| id in w.handlers && MayStore(w.handlers[id]) && MissesCovered(w, OldestReflected(w.handlers[id]));
    var h := w.handlers[id];
    if h.Storing? {
      assert steps + [] == steps;
      StoredBehindIsServed(config, steps, [], w, id);
    } else {
      RunKeepsInv(config, steps);
      FinishesBehind(config, w, id);
      var finish, w' := Finish(id, h.startVersion), Finished(w, id, h);
      Then(config, steps, w, finish, w');
      MissesTheSame(w, w', h.startVersion);
      StoredBehindIsServed(config, steps, [finish], w', id);
    }
  }

  /**
   For every reachable world: a stale hit can be served before the next
   invalidation exactly if a cached entry, or a query in flight that may store its
   result, may have read the data before some covered change.
   */
  lemma StaleHitIsPossibleExactlyFromSomethingBehind(config: Config, steps: seq<Step>)
    requires Run(config, steps).Some?
    ensures CanServeStale(config, steps) <==> QueryBehind(Run(config, steps).value) || EntryBehind(Run(config, steps).value)
  {
    hide Run, QueryBehind, EntryBehind, StaleHit;
    if QueryBehind(Run(config, steps).value) {
      QueryBehindIsServed(config, steps);
    } else if EntryBehind(Run(config, steps).value) {
      EntryBehindIsServed(config, steps);
    } else {
      forall more, query, now ensures !ServesStaleAfter(config, steps, more, query, now) {
        if Run(config, steps + more).Some? {
          RunStaysClean(config, steps, more);
          if Run(config, steps + more).value.epoch == Run(config, steps).value.epoch {
            CleanWorldServesNothingStale(config, Run(config, steps + more).value, query, now);
          }
        }
      }
    }
  }

  // ---- Over whole runs: what has to hold at the invalidations ----

  /** Every invalidation of the run leaves no query in flight behind what it covers. */
  ghost predicate LeavesNoneBehind(config: Config, steps: seq<Step>) {
    forall i | 0 <= i < |steps| && Run(config, steps[..i]).Some? && Invalidates(Run(config, steps[..i]).value, steps[i]) ::
      Run(config, steps[..i + 1]).Some? ==> !QueryBehind(Run(config, steps[..i + 1]).value)
  }

  lemma NothingBehindAtStart()
    ensures !QueryBehind(Start()) && !EntryBehind(Start())
  {
  }

  lemma {:induction false} CleanThroughout(config: Config, steps: seq<Step>, k: nat)
    requires k <= |steps| && Run(config, steps[..k]).Some? && LeavesNoneBehind(config, steps)
    ensures !QueryBehind(Run(config, steps[..k]).value) && !EntryBehind(Run(config, steps[..k]).value)
  {
    hide QueryBehind, Next, Invalidates, Inv, MissesCovered;
    if k == 0 {
      NothingBehindAtStart();
      assert steps[..0] == [];
    } else {
      RunBeforeLast(config, steps, k);
      CleanThroughout(config, steps, k - 1);
      RunKeepsInv(config, steps[..k - 1]);
      var w, step := Run(config, steps[..k - 1]).value, steps[k - 1];
      EpochGrows(config, w, step);
      if !Invalidates(w, step) {
        StepStaysClean(config, w, step);
      }
    }
  }

  lemma {:induction false} PrefixRuns(config: Config, steps: seq<Step>, k: nat)
    requires Run(config, steps).Some? && k <= |steps|
    ensures Run(config, steps[..k]).Some?
    decreases |steps| - k
  {
    if k < |steps| {
      PrefixRuns(config, steps, k + 1);
      RunBeforeLast(config, steps, k + 1);
    } else {
      assert steps[..k] == steps;
    }
  }

  /**
   For every run: no stale hit could be served from any instant of it exactly if
   each of its invalidations left no query in flight that may store its result and
   may have read the data before a change covered there.
   */
  lemma HitsAreFreshExactlyWhenNoneIsLeftBehind(config: Config, steps: seq<Step>)
    requires Run(config, steps).Some?
    ensures (forall k | 0 <= k <= |steps| :: !CanServeStale(config, steps[..k])) <==> LeavesNoneBehind(config, steps)
  {
    hide Run, QueryBehind, EntryBehind, CanServeStale, Invalidates;
    forall k | 0 <= k <= |steps|
      ensures Run(config, steps[..k]).Some?
      ensures CanServeStale(config, steps[..k]) <==> QueryBehind(Run(config, steps[..k]).value) || EntryBehind(Run(config, steps[..k]).value)
    {
      PrefixRuns(config, steps, k);
      StaleHitIsPossibleExactlyFromSomethingBehind(config, steps[..k]);
    }
    if LeavesNoneBehind(config, steps) {
      forall k | 0 <= k <= |steps| ensures !CanServeStale(config, steps[..k]) {
        CleanThroughout(config, steps, k);
      }
    } else {
      var i :| 0 <= i < |steps| && Run(config, steps[..i]).Some? && Invalidates(Run(config, steps[..i]).value, steps[i])
               && QueryBehind(Run(config, steps[..i + 1]).value);
      assert CanServeStale(config, steps[..i + 1]);
    }
  }
}
