/** Whole syncs inside a run: what an interleaved one guarantees, and that an uninterrupted one is the listener's `sync`. */
module SyncRuns {
  import opened Options
  import opened Serving
  import Lru
  import CdcSync
  import NormalizeQuery

  // ---- A sync among other steps ----

  /** The paths marked by the steps from `b` up to `e`. */
  function MarkedIn(steps: seq<Step>, b: nat, e: nat): set<string>
    requires b <= e <= |steps|
  {
    set m | b <= m < e && steps[m].Mark? :: steps[m].path
  }

  /** Steps `b` to `e` of the run are one sync: from its beginning until the listener is first idle again. */
  ghost predicate IsSync(config: Config, steps: seq<Step>, b: nat, e: nat) {
    && b < e <= |steps| && steps[b] == BeginSync
    && (forall k | b < k < e :: Run(config, steps[..k]).Some? && Run(config, steps[..k]).value.listener != Idle)
    && Run(config, steps[..e]).Some? && Run(config, steps[..e]).value.listener == Idle
  }

  /** The sync so far: what it marked, and that it has not invalidated anything yet. */
  ghost predicate MidSync(before: World, w: World, marks: set<string>) {
    && w.marked == before.marked + marks && w.epoch == before.epoch && w.covered == before.covered
    && match w.listener
       case Idle => false
       case Marking(found) => found == 0 <==> marks == {}
       case _ => marks != {}
  }

  lemma MarkedGrows(steps: seq<Step>, b: nat, k: nat)
    requires b < k <= |steps|
    ensures MarkedIn(steps, b, k) == MarkedIn(steps, b, k - 1) + if steps[k - 1].Mark? then {steps[k - 1].path} else {}
  {
  }

  /** While the sync goes on, no other step touches what it has marked. */
  lemma StepKeepsMidSync(config: Config, before: World, w: World, step: Step, marks: set<string>)
    requires MidSync(before, w, marks) && Next(config, w, step).Some?
    ensures var w', marks' := Next(config, w, step).value, marks + if step.Mark? then {step.path} else {};
      && (w'.listener != Idle ==> MidSync(before, w', marks'))
      && (w'.listener == Idle ==> marks' == marks && w'.marked == before.marked + marks)
      && (w'.listener == Idle && marks == {} ==> w'.epoch == before.epoch && w'.covered == before.covered)
      && (w'.listener == Idle && marks != {} ==> w'.epoch == before.epoch + 1 && w'.covered == w'.marked && w'.cache.slots == [])
  {
    hide Lru.Get, Lru.Set, IsCacheable, NormalizeQuery.Normalize;
  }

  lemma {:induction false} SyncSoFar(config: Config, steps: seq<Step>, b: nat, e: nat, k: nat)
    requires IsSync(config, steps, b, e) && b < k < e
    ensures Run(config, steps[..b]).Some?
    ensures MidSync(Run(config, steps[..b]).value, Run(config, steps[..k]).value, MarkedIn(steps, b, k))
    decreases k
  {
    hide Run, Next;
    RunBeforeLast(config, steps, k);
    MarkedGrows(steps, b, k);
    if k > b + 1 {
      SyncSoFar(config, steps, b, e, k - 1);
      StepKeepsMidSync(config, Run(config, steps[..b]).value, Run(config, steps[..k - 1]).value, steps[k - 1], MarkedIn(steps, b, k - 1));
    } else {
      BeginStartsMidSync(config, Run(config, steps[..b]).value);
      assert MarkedIn(steps, b, b) == {};
    }
  }

  lemma BeginStartsMidSync(config: Config, w: World)
    requires Next(config, w, BeginSync).Some?
    ensures MidSync(w, Next(config, w, BeginSync).value, {})
  {
  }

  /**
   In every run, whatever happens meanwhile: a sync that marked an event ends at an
   instant, after its last mark, when the cache is empty and all it marked is
   covered, having invalidated once; a sync that marked nothing invalidates nothing.
   */
  lemma SyncCoversWhatItMarks(config: Config, steps: seq<Step>, b: nat, e: nat)
    requires IsSync(config, steps, b, e)
    ensures Run(config, steps[..b]).Some?
    ensures var before, w, marks := Run(config, steps[..b]).value, Run(config, steps[..e]).value, MarkedIn(steps, b, e);
      && w.marked == before.marked + marks
      && (marks != {} ==> w.cache.slots == [] && marks <= w.covered == w.marked && w.epoch == before.epoch + 1)
      && (marks == {} ==> w.covered == before.covered && w.epoch == before.epoch)
  {
    hide Run, Next;
    RunBeforeLast(config, steps, e);
    MarkedGrows(steps, b, e);
    if e > b + 1 {
      SyncSoFar(config, steps, b, e, e - 1);
      StepKeepsMidSync(config, Run(config, steps[..b]).value, Run(config, steps[..e - 1]).value, steps[e - 1], MarkedIn(steps, b, e - 1));
    } else {
      BeginStartsMidSync(config, Run(config, steps[..b]).value);
    }
  }

  // ---- A sync nothing interrupts ----

  /** The marks of a sync over these directory entries, given what was marked before. */
  function Marks(marked: set<string>, entries: seq<CdcSync.DirEntry>): seq<Step> {
    if entries == [] then []
    else
      var init, e := entries[..|entries| - 1], entries[|entries| - 1];
      Marks(marked, init) + if CdcSync.IsNew(CdcSync.ProcessedAfter(marked, init), e) then [Mark(e.path)] else []
  }

  function SyncSteps(w: World, entries: seq<CdcSync.DirEntry>): seq<Step> {
    var marks := Marks(w.marked, entries);
    [BeginSync] + marks + [EndMarking]
    + if marks == [] then [] else [CheckEmpty] + if w.cache.slots == [] then [] else [ClearCache]
  }

  /** The event files of the world are what a readable listing shows. */
  ghost predicate Visible(w: World, entries: seq<CdcSync.DirEntry>) {
    forall e | e in entries && e.File? && e.content.Some? && CdcSync.HasJsonExtension(e.path) :: e.path in w.events
  }

  lemma {:induction false} MarksTakeTheEvents(config: Config, steps: seq<Step>, w: World, entries: seq<CdcSync.DirEntry>)
    requires Run(config, steps) == Some(w) && w.listener == Marking(0) && Visible(w, entries)
    ensures |Marks(w.marked, entries)| == |CdcSync.EventsOf(w.marked, entries)|
    ensures Run(config, steps + Marks(w.marked, entries))
         == Some(w.(listener := Marking(|Marks(w.marked, entries)|), marked := CdcSync.ProcessedAfter(w.marked, entries)))
  {
    hide Run, CdcSync.HasJsonExtension;
    if entries == [] {
      assert steps + [] == steps;
    } else {
      var init, e := entries[..|entries| - 1], entries[|entries| - 1];
      assert e in entries && forall x | x in init :: x in entries;
      MarksTakeTheEvents(config, steps, w, init);
      var marks, taken := Marks(w.marked, init), CdcSync.ProcessedAfter(w.marked, init);
      if CdcSync.IsNew(taken, e) {
        var w1 := w.(listener := Marking(|marks|), marked := taken);
        Then(config, steps + marks, w1, Mark(e.path), w1.(listener := Marking(|marks| + 1), marked := taken + {e.path}));
        assert steps + (marks + [Mark(e.path)]) == steps + marks + [Mark(e.path)];
      } else {
        assert marks + [] == marks;
      }
    }
  }

  /** After the marks: no event ends the sync; any event empties the cache, at once if it is empty already. */
  lemma SyncEnds(config: Config, steps: seq<Step>, w: World, found: nat)
    requires Run(config, steps) == Some(w) && w.listener == Marking(found)
    ensures found == 0 ==> Run(config, steps + [EndMarking]) == Some(w.(listener := Idle))
    ensures found > 0 && w.cache.slots == [] ==> Run(config, steps + [EndMarking] + [CheckEmpty]) == Some(Invalidated(w))
    ensures found > 0 && w.cache.slots != [] ==>
      Run(config, steps + [EndMarking] + [CheckEmpty] + [ClearCache]) == Some(Invalidated(w.(cache := Lru.Clear(w.cache))))
  {
    hide Run;
    if found == 0 {
      Then(config, steps, w, EndMarking, w.(listener := Idle));
    } else {
      var w1 := w.(listener := Checking);
      Then(config, steps, w, EndMarking, w1);
      if w.cache.slots == [] {
        Then(config, steps + [EndMarking], w1, CheckEmpty, Invalidated(w));
      } else {
        var w2 := w.(listener := Clearing);
        Then(config, steps + [EndMarking], w1, CheckEmpty, w2);
        Then(config, steps + [EndMarking] + [CheckEmpty], w2, ClearCache, Invalidated(w.(cache := Lru.Clear(w.cache))));
      }
    }
  }

  /**
   A sync that nothing interrupts does what `CdcListener.Sync` promises: the same
   paths are processed, as many events taken, and the cache is cleared exactly when
   there was one. Nothing else changes.
   */
  lemma UninterruptedSyncIsTheListeners(config: Config, steps: seq<Step>, w: World, entries: seq<CdcSync.DirEntry>)
    requires Run(config, steps) == Some(w) && w.listener == Idle && Visible(w, entries)
    ensures var events, after := CdcSync.EventsOf(w.marked, entries), Run(config, steps + SyncSteps(w, entries));
      && after.Some? && after.value.listener == Idle
      && after.value.marked == CdcSync.ProcessedAfter(w.marked, entries)
      && |after.value.marked| == |w.marked| + |events|
      && after.value.cache == (if |events| > 0 then Lru.Clear(w.cache) else w.cache)
      && after.value.handlers == w.handlers && after.value.version == w.version && after.value.events == w.events
  {
    hide Run, CdcSync.EventsOf, CdcSync.ProcessedAfter, CdcSync.HasJsonExtension, Marks;
    var marks := Marks(w.marked, entries);
    var w1 := w.(listener := Marking(0));
    Then(config, steps, w, BeginSync, w1);
    MarksTakeTheEvents(config, steps + [BeginSync], w1, entries);
    CdcSync.EventsAreCountedOnce(w.marked, entries);
    var w2 := w1.(listener := Marking(|marks|), marked := CdcSync.ProcessedAfter(w.marked, entries));
    var marked := steps + [BeginSync] + marks;
    SyncEnds(config, marked, w2, |marks|);
    if marks == [] {
      assert steps + SyncSteps(w, entries) == marked + [EndMarking];
    } else if w.cache.slots == [] {
      assert steps + SyncSteps(w, entries) == marked + [EndMarking] + [CheckEmpty];
    } else {
      assert steps + SyncSteps(w, entries) == marked + [EndMarking] + [CheckEmpty] + [ClearCache];
    }
  }
}
