/**
 The two query handlers and the polling listener, interleaved on the shared cache
 (src/server.rs, lines 100-263, and src/cdc_sync.rs). Each cache operation is one
 step; the sequences get-execute-set and mark-check-clear are not.
 */
module Serving {
  import opened Options
  import Lru
  import opened NormalizeQuery

  // ---- Which statements may use the cache ----

  function AsciiUpper(c: char): char {
    if 'a' <= c <= 'z' then (c as int - 32) as char else c
  }

  predicate IsAsciiLetter(c: char) {
    'a' <= c <= 'z' || 'A' <= c <= 'Z'
  }

  function LeadingLetters(s: string): string {
    if s == "" || !IsAsciiLetter(s[0]) then "" else [AsciiUpper(s[0])] + LeadingLetters(s[1..])
  }

  predicate IsCacheable(query: string) {
    var keyword := LeadingLetters(TrimStart(query));
    keyword == "SELECT" || keyword == "WITH"
  }

  /** A statement with bound parameters bypasses the cache; the simple protocol has none. */
  predicate MayUseCache(query: string, parameters: nat) {
    parameters == 0 && IsCacheable(query)
  }

  /** `s` is the word, each letter of it small or capital. */
  predicate SpellsWord(s: string, word: string) {
    |s| == |word| && forall k | 0 <= k < |word| :: s[k] == word[k] || s[k] as int == word[k] as int + 32
  }

  /**
   What a statement that may use the cache looks like: white space, then SELECT or
   WITH in any letter case, then the end or a character that is no ASCII letter.
   */
  ghost predicate ReadsOnly(query: string) {
    exists i: nat, j: nat ::
      && i <= j <= |query| && AllWhite(query[..i])
      && (SpellsWord(query[i..j], "SELECT") || SpellsWord(query[i..j], "WITH"))
      && (j < |query| ==> !('A' <= query[j] <= 'Z' || 'a' <= query[j] <= 'z'))
  }

  lemma {:induction false} LeadingLettersAre(s: string)
    ensures |LeadingLetters(s)| <= |s|
    ensures forall k | 0 <= k < |LeadingLetters(s)| :: IsAsciiLetter(s[k]) && LeadingLetters(s)[k] == AsciiUpper(s[k])
    ensures |LeadingLetters(s)| < |s| ==> !IsAsciiLetter(s[|LeadingLetters(s)|])
  {
    if s != "" && IsAsciiLetter(s[0]) {
      LeadingLettersAre(s[1..]);
    }
  }

  predicate IsCapitals(word: string) {
    forall k | 0 <= k < |word| :: 'A' <= word[k] <= 'Z'
  }

  /** A letter in capitals is that capital exactly if it is it, or its small form. */
  lemma UpperIs(c: char, capital: char)
    requires 'A' <= capital <= 'Z'
    ensures IsAsciiLetter(c) && AsciiUpper(c) == capital <==> c == capital || c as int == capital as int + 32
  {
  }

  /** If the leading letters are a word of capitals, the text spells that word and then stops. */
  lemma LeadingLettersSpell(s: string, word: string)
    requires IsCapitals(word) && LeadingLetters(s) == word
    ensures |word| <= |s| && SpellsWord(s[..|word|], word) && (|word| < |s| ==> !IsAsciiLetter(s[|word|]))
  {
    LeadingLettersAre(s);
    hide LeadingLetters, AsciiUpper, IsAsciiLetter;
    forall k | 0 <= k < |word| ensures s[k] == word[k] || s[k] as int == word[k] as int + 32 {
      UpperIs(s[k], word[k]);
    }
  }

  /** And conversely. */
  lemma SpelledWordLeads(s: string, rest: string, word: string)
    requires IsCapitals(word) && SpellsWord(s, word) && (rest == "" || !IsAsciiLetter(rest[0]))
    ensures LeadingLetters(s + rest) == word
  {
    var text := s + rest;
    LeadingLettersAre(text);
    hide LeadingLetters, AsciiUpper, IsAsciiLetter;
    forall k | 0 <= k < |s| ensures text[k] == s[k] && IsAsciiLetter(s[k]) && AsciiUpper(s[k]) == word[k] {
      UpperIs(s[k], word[k]);
    }
    assert rest != "" ==> text[|s|] == rest[0];
  }

  lemma SpelledWordIsNotWhite(s: string, word: string)
    requires word != "" && SpellsWord(s, word) && IsCapitals(word)
    ensures !White(s[0])
  {
  }

  lemma {:induction false} DroppedIsWhite(s: string, i: nat)
    requires i < |s| - |TrimStart(s)|
    ensures White(s[i])
  {
    hide White;
    if i == 0 {
      WhitespaceIsWhiteSpace(s[0]);
    } else {
      DroppedIsWhite(s[1..], i - 1);
    }
  }

  lemma TrimmedStartIsWhite(s: string) returns (w: string)
    ensures AllWhite(w) && s == w + TrimStart(s)
  {
    hide White, IsWhitespace;
    w := s[..|s| - |TrimStart(s)|];
    forall i | 0 <= i < |w| ensures White(w[i]) {
      DroppedIsWhite(s, i);
    }
    hide TrimStart;
  }

  /** Which statements may be answered from the cache, or stored in it. */
  lemma CacheIsForReadsOnly(query: string, parameters: nat)
    ensures MayUseCache(query, parameters) <==> parameters == 0 && ReadsOnly(query)
  {
    if IsCacheable(query) {
      CacheableReadsOnly(query);
    }
    if ReadsOnly(query) {
      ReadsOnlyIsCacheable(query);
    }
  }

  lemma CacheableReadsOnly(query: string)
    requires IsCacheable(query)
    ensures ReadsOnly(query)
  {
    hide TrimStart, LeadingLetters, AllWhite, SpellsWord, IsWhitespace;
    var head := TrimStart(query);
    var w := TrimmedStartIsWhite(query);
    var i := |w|;
    assert query[..i] == w;
    LeadingLettersSpell(head, LeadingLetters(head));
    var j := i + |LeadingLetters(head)|;
    assert query[i..] == head && query[i..j] == head[..j - i];
    assert j < |query| ==> query[j] == head[j - i];
  }

  lemma ReadsOnlyIsCacheable(query: string)
    requires ReadsOnly(query)
    ensures IsCacheable(query)
  {
    hide IsCacheable, AllWhite, SpellsWord;
    var i: nat, j: nat :|
      && i <= j <= |query| && AllWhite(query[..i])
      && (SpellsWord(query[i..j], "SELECT") || SpellsWord(query[i..j], "WITH"))
      && (j < |query| ==> !('A' <= query[j] <= 'Z' || 'a' <= query[j] <= 'z'));
    var before, s, after := query[..i], query[i..j], query[j..];
    assert query == before + (s + after);
    assert after != "" ==> after[0] == query[j];
    if SpellsWord(s, "SELECT") {
      KeywordIsCacheable(before, s, after, "SELECT");
    } else {
      KeywordIsCacheable(before, s, after, "WITH");
    }
  }

  lemma KeywordIsCacheable(before: string, s: string, after: string, word: string)
    requires AllWhite(before) && (word == "SELECT" || word == "WITH") && SpellsWord(s, word)
    requires after == "" || !IsAsciiLetter(after[0])
    ensures IsCacheable(before + (s + after))
  {
    hide TrimStart, LeadingLetters, AllWhite, SpellsWord, IsWhitespace, IsAsciiLetter;
    var head := s + after;
    SpelledWordIsNotWhite(s, word);
    SpelledLength(s, word);
    assert head[0] == s[0] && head[..|s|] == s && head[|s|..] == after;
    TrimStartDropsWhite(before, head);
    SpelledWordLeads(s, after, word);
  }

  lemma SpelledLength(s: string, word: string)
    requires SpellsWord(s, word)
    ensures |s| == |word|
  {
  }

  // ---- The world ----

  /**
   A cached result and where it came from: the query, its handler, the number of
   invalidations before it started and before it was stored, the time it was
   stored at, and a version of the source data all of whose changes it reflects.
   */
  datatype Answer = Answer(query: string, handler: nat, startEpoch: nat, reflects: nat)
  datatype Cached = Cached(answer: Answer, storedEpoch: nat, storedAt: nat)

  /** A query past its cache lookup: executing, or about to store its result. */
  datatype Handler =
    | Executing(query: string, cacheable: bool, startEpoch: nat, startVersion: nat)
    | Storing(answer: Answer)

  /** The listener between its steps; `Marking` counts the events taken so far. */
  datatype Listener = Idle | Marking(found: nat) | Checking | Clearing

  /**
   `events` maps each visible event file to the data version it signals. `epoch`
   counts the instants a sync saw or made the cache empty; `covered` and `floor`
   are the events marked, and the data version, at the last such instant.
   */
  datatype World = World(
    cache: Lru.State<Cached>,
    handlers: map<nat, Handler>,
    listener: Listener,
    version: nat,
    events: map<string, nat>,
    marked: set<string>,
    epoch: nat,
    covered: set<string>,
    floor: nat)

  datatype Config = Config(limits: Lru.Limits, parse: SqlParser)

  function Start(): World {
    World(Lru.Init(), map[], Idle, 0, map[], {}, 0, {}, 0)
  }

  datatype Step =
    | ChangeData                                                         // the source commits a change
    | SignalChange(path: string)                                         // an event file appears
    | Lookup(id: nat, query: string, parameters: nat, now: nat)          // cache.get, or straight to the engine
    | Finish(id: nat, reflects: nat)                                     // the engine returns batches
    | Fail(id: nat)                                                      // the query or its encoding fails
    | Store(id: nat, now: nat)                                           // cache.set
    | BeginSync
    | Mark(path: string)                                                 // a readable new event file
    | EndMarking
    | CheckEmpty
    | ClearCache

  function Invalidated(w: World): World {
    w.(listener := Idle, epoch := w.epoch + 1, covered := w.marked, floor := w.version)
  }

  /** The hit a lookup gets, if it gets one. */
  function Hit(config: Config, w: World, query: string, parameters: nat, now: nat): Option<Cached> {
    if MayUseCache(query, parameters) then Lru.Get(config.limits, w.cache, Normalize(config.parse, query), now).1 else None
  }

  function LookupStep(config: Config, w: World, id: nat, query: string, parameters: nat, now: nat): World {
    var cacheable := MayUseCache(query, parameters);
    var looked := if cacheable then w.(cache := Lru.Get(config.limits, w.cache, Normalize(config.parse, query), now).0) else w;
    if Hit(config, w, query, parameters, now).Some? then looked
    else looked.(handlers := w.handlers[id := Executing(query, cacheable, w.epoch, w.version)])
  }

  /** One step, or nothing if it is not enabled. */
  function Next(config: Config, w: World, step: Step): Option<World> {
    match step
    case ChangeData => Some(w.(version := w.version + 1))
    case SignalChange(path) =>
      if path in w.events then None else Some(w.(events := w.events[path := w.version]))
    case Lookup(id, query, parameters, now) =>
      if id in w.handlers then None else Some(LookupStep(config, w, id, query, parameters, now))
    case Finish(id, reflects) =>
      if id in w.handlers && w.handlers[id].Executing? && w.handlers[id].startVersion <= reflects <= w.version then
        var h := w.handlers[id];
        if h.cacheable then Some(w.(handlers := w.handlers[id := Storing(Answer(h.query, id, h.startEpoch, reflects))]))
        else Some(w.(handlers := w.handlers - {id}))
      else None
    case Fail(id) =>
      if id in w.handlers then Some(w.(handlers := w.handlers - {id})) else None
    case Store(id, now) =>
      if id in w.handlers && w.handlers[id].Storing? then
        var a := w.handlers[id].answer;
        Some(w.(cache := Lru.Set(config.limits, w.cache, Normalize(config.parse, a.query), Cached(a, w.epoch, now), now),
                handlers := w.handlers - {id}))
      else None
    case BeginSync => if w.listener == Idle then Some(w.(listener := Marking(0))) else None
    case Mark(path) =>
      if w.listener.Marking? && path in w.events && path !in w.marked then
        Some(w.(listener := Marking(w.listener.found + 1), marked := w.marked + {path}))
      else None
    case EndMarking =>
      if w.listener.Marking? then Some(w.(listener := if w.listener.found == 0 then Idle else Checking)) else None
    case CheckEmpty =>
      if w.listener == Checking then
        Some(if w.cache.slots == [] then Invalidated(w) else w.(listener := Clearing))
      else None
    case ClearCache =>
      if w.listener == Clearing then Some(Invalidated(w.(cache := Lru.Clear(w.cache)))) else None
  }

  function Run(config: Config, steps: seq<Step>): Option<World> {
    if steps == [] then Some(Start())
    else
      var w :- Run(config, steps[..|steps| - 1]);
      Next(config, w, steps[|steps| - 1])
  }

  lemma RunBeforeLast(config: Config, steps: seq<Step>, k: nat)
    requires 0 < k <= |steps| && Run(config, steps[..k]).Some?
    ensures Run(config, steps[..k - 1]).Some?
    ensures Run(config, steps[..k]) == Next(config, Run(config, steps[..k - 1]).value, steps[k - 1])
  {
    assert steps[..k][..k - 1] == steps[..k - 1];
  }

  // ---- What every step keeps ----

  /** An answer whose query started after the last invalidation reflects the data as of that instant. */
  predicate Fresh(w: World, a: Answer) {
    a.startEpoch <= w.epoch && (a.startEpoch == w.epoch ==> a.reflects >= w.floor)
  }

  ghost predicate EventsOk(w: World) {
    && w.floor <= w.version
    && (forall p | p in w.events :: w.events[p] <= w.version)
    && w.covered <= w.marked && (forall p | p in w.marked :: p in w.events)
    && (forall p | p in w.covered :: w.events[p] <= w.floor)
    && (w.listener == Idle || w.listener == Marking(0) ==> w.covered == w.marked)
  }

  predicate HandlerOk(w: World, id: nat, h: Handler) {
    match h
    case Executing(query, cacheable, startEpoch, startVersion) =>
      && startEpoch <= w.epoch && startVersion <= w.version
      && (startEpoch == w.epoch ==> startVersion >= w.floor)
      && (cacheable ==> IsCacheable(query))
    case Storing(a) => a.handler == id && IsCacheable(a.query) && Fresh(w, a)
  }

  predicate SlotOk(config: Config, w: World, slot: Lru.Slot<Cached>) {
    var a := slot.value.answer;
    && slot.key == Normalize(config.parse, a.query) && IsCacheable(a.query)
    && slot.value.storedEpoch == w.epoch && slot.value.storedAt == slot.insertedAt
    && Fresh(w, a)
  }

  ghost predicate Inv(config: Config, w: World) {
    && EventsOk(w)
    && (forall id | id in w.handlers :: HandlerOk(w, id, w.handlers[id]))
    && (forall i | 0 <= i < |w.cache.slots| :: SlotOk(config, w, w.cache.slots[i]))
    && Lru.Distinct(w.cache.slots)
  }

  lemma SlotsAfterGet<V>(limits: Lru.Limits, s: Lru.State<V>, key: string, now: nat)
    ensures forall i | 0 <= i < |Lru.Get(limits, s, key, now).0.slots| :: Lru.Get(limits, s, key, now).0.slots[i] in s.slots
  {
  }

  lemma SlotsAfterSet<V>(limits: Lru.Limits, s: Lru.State<V>, key: string, value: V, now: nat)
    ensures forall i | 0 <= i < |Lru.Set(limits, s, key, value, now).slots| ::
      var slot := Lru.Set(limits, s, key, value, now).slots[i]; slot in s.slots || slot == Lru.Slot(key, value, now)
  {
  }

  lemma DistinctAfterGet<V>(limits: Lru.Limits, s: Lru.State<V>, key: string, now: nat)
    requires Lru.Distinct(s.slots)
    ensures Lru.Distinct(Lru.Get(limits, s, key, now).0.slots)
  {
    hide Lru.Get, Lru.Distinct;
    Lru.ApplyKeepsDistinct(limits, s, Lru.GetOp(key, now));
  }

  lemma DistinctAfterSet<V>(limits: Lru.Limits, s: Lru.State<V>, key: string, value: V, now: nat)
    requires Lru.Distinct(s.slots)
    ensures Lru.Distinct(Lru.Set(limits, s, key, value, now).slots)
  {
    hide Lru.Set, Lru.Distinct;
    Lru.ApplyKeepsDistinct(limits, s, Lru.SetOp(key, value, now));
  }

  lemma LookupKeepsInv(config: Config, w: World, id: nat, query: string, parameters: nat, now: nat)
    requires Inv(config, w) && id !in w.handlers
    ensures Inv(config, LookupStep(config, w, id, query, parameters, now))
  {
    hide Lru.Get, Lru.Distinct, IsCacheable, Normalize;
    SlotsAfterGet(config.limits, w.cache, Normalize(config.parse, query), now);
    DistinctAfterGet(config.limits, w.cache, Normalize(config.parse, query), now);
    var w' := LookupStep(config, w, id, query, parameters, now);
    forall i | 0 <= i < |w'.cache.slots| ensures SlotOk(config, w', w'.cache.slots[i]) {
      assert w'.cache.slots[i] in w.cache.slots;
      var j :| 0 <= j < |w.cache.slots| && w.cache.slots[j] == w'.cache.slots[i];
      assert SlotOk(config, w, w.cache.slots[j]);
    }
    forall i | i in w'.handlers ensures HandlerOk(w', i, w'.handlers[i]) {
      if i in w.handlers {
        assert HandlerOk(w, i, w.handlers[i]);
      }
    }
  }

  lemma StoreKeepsInv(config: Config, w: World, id: nat, now: nat)
    requires Inv(config, w) && Next(config, w, Store(id, now)).Some?
    ensures Inv(config, Next(config, w, Store(id, now)).value)
  {
    hide Lru.Set, Lru.Distinct, IsCacheable, Normalize;
    var w', a := Next(config, w, Store(id, now)).value, w.handlers[id].answer;
    assert HandlerOk(w, id, w.handlers[id]);
    SlotsAfterSet(config.limits, w.cache, Normalize(config.parse, a.query), Cached(a, w.epoch, now), now);
    DistinctAfterSet(config.limits, w.cache, Normalize(config.parse, a.query), Cached(a, w.epoch, now), now);
    forall i | 0 <= i < |w'.cache.slots| ensures SlotOk(config, w', w'.cache.slots[i]) {
      if w'.cache.slots[i] in w.cache.slots {
        var j :| 0 <= j < |w.cache.slots| && w.cache.slots[j] == w'.cache.slots[i];
        assert SlotOk(config, w, w.cache.slots[j]);
      }
    }
    forall i | i in w'.handlers ensures HandlerOk(w', i, w'.handlers[i]) {
      assert HandlerOk(w, i, w.handlers[i]);
    }
  }

  lemma OtherStepKeepsInv(config: Config, w: World, step: Step)
    requires Inv(config, w) && Next(config, w, step).Some? && !step.Lookup? && !step.Store?
    ensures Inv(config, Next(config, w, step).value)
  {
    OtherStepKeepsEvents(config, w, step);
    OtherStepKeepsHandlers(config, w, step);
    OtherStepKeepsSlots(config, w, step);
  }

  lemma OtherStepKeepsEvents(config: Config, w: World, step: Step)
    requires EventsOk(w) && Next(config, w, step).Some? && !step.Lookup? && !step.Store?
    ensures EventsOk(Next(config, w, step).value)
  {
    hide IsCacheable, Normalize, Lru.Clear, LookupStep;
  }

  lemma OtherStepKeepsHandlers(config: Config, w: World, step: Step)
    requires Inv(config, w) && Next(config, w, step).Some? && !step.Lookup? && !step.Store?
    ensures var w' := Next(config, w, step).value; forall i | i in w'.handlers :: HandlerOk(w', i, w'.handlers[i])
  {
    hide IsCacheable, Normalize, SlotOk, Lru.Clear, LookupStep;
    var w' := Next(config, w, step).value;
    forall i | i in w'.handlers ensures HandlerOk(w', i, w'.handlers[i]) {
      assert HandlerOk(w, i, w.handlers[i]);
    }
  }

  lemma OtherStepKeepsSlots(config: Config, w: World, step: Step)
    requires Inv(config, w) && Next(config, w, step).Some? && !step.Lookup? && !step.Store?
    ensures var w' := Next(config, w, step).value; forall i | 0 <= i < |w'.cache.slots| :: SlotOk(config, w', w'.cache.slots[i])
    ensures Lru.Distinct(Next(config, w, step).value.cache.slots)
  {
    hide IsCacheable, Normalize, HandlerOk, EventsOk, LookupStep;
    var w' := Next(config, w, step).value;
    forall i | 0 <= i < |w'.cache.slots| ensures SlotOk(config, w', w'.cache.slots[i]) {
      assert SlotOk(config, w, w.cache.slots[i]);
    }
  }

  lemma {:induction false} RunKeepsInv(config: Config, steps: seq<Step>)
    requires Run(config, steps).Some?
    ensures Inv(config, Run(config, steps).value)
  {
    hide Next, Inv;
    if steps == [] {
      StartIsOk(config);
    } else {
      var before, step := steps[..|steps| - 1], steps[|steps| - 1];
      RunKeepsInv(config, before);
      NextKeepsInv(config, Run(config, before).value, step);
    }
  }

  lemma StartIsOk(config: Config)
    ensures Inv(config, Start())
  {
  }

  lemma NextKeepsInv(config: Config, w: World, step: Step)
    requires Inv(config, w) && Next(config, w, step).Some?
    ensures Inv(config, Next(config, w, step).value)
  {
    hide Inv, LookupStep;
    match step
    case Lookup(id, query, parameters, now) => LookupKeepsInv(config, w, id, query, parameters, now);
    case Store(id, now) => StoreKeepsInv(config, w, id, now);
    case _ => OtherStepKeepsInv(config, w, step);
  }

  // ---- Staleness belongs to straddlers ----

  /** The step is an invalidation: the listener sees the cache empty, or empties it. */
  predicate Invalidates(w: World, step: Step) {
    (step == CheckEmpty && w.listener == Checking && w.cache.slots == []) || (step == ClearCache && w.listener == Clearing)
  }

  /** Which execution of which query: handler ids are used again, even within one epoch. */
  datatype Execution = Execution(handler: nat, query: string, startEpoch: nat)

  function ExecutionOf(id: nat, h: Handler): Execution {
    match h
    case Executing(query, _, startEpoch, _) => Execution(id, query, startEpoch)
    case Storing(a) => Execution(id, a.query, a.startEpoch)
  }

  function ExecutionBehind(a: Answer): Execution {
    Execution(a.handler, a.query, a.startEpoch)
  }

  predicate MayStore(h: Handler) {
    h.Executing? ==> h.cacheable
  }

  /** Step `i` of the run is its invalidation number `instant`, and `x` is in flight then and may still store its result. */
  ghost predicate StraddlesAt(config: Config, steps: seq<Step>, i: nat, x: Execution, instant: nat) {
    && i < |steps| && Run(config, steps[..i]).Some?
    && var w := Run(config, steps[..i]).value;
       && Invalidates(w, steps[i]) && w.epoch == instant
       && x.handler in w.handlers && MayStore(w.handlers[x.handler]) && ExecutionOf(x.handler, w.handlers[x.handler]) == x
  }

  ghost predicate Straddles(config: Config, steps: seq<Step>, x: Execution, instant: nat) {
    exists i: nat :: StraddlesAt(config, steps, i, x, instant)
  }

  lemma StraddlesLonger(config: Config, steps: seq<Step>, x: Execution, instant: nat)
    requires steps != [] && Straddles(config, steps[..|steps| - 1], x, instant)
    ensures Straddles(config, steps, x, instant)
  {
    var before := steps[..|steps| - 1];
    var i: nat :| StraddlesAt(config, before, i, x, instant);
    assert before[..i] == steps[..i];
    assert StraddlesAt(config, steps, i, x, instant);
  }

  /** `x` was in flight at every invalidation since it started, up to `epoch`. */
  ghost predicate StraddledAll(config: Config, steps: seq<Step>, x: Execution, epoch: nat) {
    forall e: nat | x.startEpoch <= e < epoch :: Straddles(config, steps, x, e)
  }

  /** Handlers that may store, and the executions behind entries, were in flight at every invalidation since they started. */
  ghost predicate OldOnesStraddled(config: Config, steps: seq<Step>, w: World) {
    && (forall id | id in w.handlers && MayStore(w.handlers[id]) :: StraddledAll(config, steps, ExecutionOf(id, w.handlers[id]), w.epoch))
    && (forall i | 0 <= i < |w.cache.slots| :: StraddledAll(config, steps, ExecutionBehind(w.cache.slots[i].value.answer), w.epoch))
  }

  /** Where a handler of the next world that may store comes from. */
  lemma HandlerOrigin(config: Config, w: World, step: Step, id: nat)
    requires Next(config, w, step).Some? && id in Next(config, w, step).value.handlers
    requires MayStore(Next(config, w, step).value.handlers[id])
    ensures var x := ExecutionOf(id, Next(config, w, step).value.handlers[id]);
      (id in w.handlers && MayStore(w.handlers[id]) && ExecutionOf(id, w.handlers[id]) == x)
      || (step.Lookup? && x.startEpoch == w.epoch && !Invalidates(w, step))
  {
    hide Lru.Get, Lru.Set, IsCacheable, Normalize;
  }

  /** Where an entry of the next world comes from: an old entry, or a handler that stores it. */
  lemma SlotOrigin(config: Config, w: World, step: Step, i: nat)
    requires Inv(config, w) && Next(config, w, step).Some? && i < |Next(config, w, step).value.cache.slots|
    ensures var a := Next(config, w, step).value.cache.slots[i].value.answer;
      || (exists j | 0 <= j < |w.cache.slots| :: w.cache.slots[j].value.answer == a)
      || (a.handler in w.handlers && w.handlers[a.handler] == Storing(a))
  {
    hide Lru.Get, Lru.Set, IsCacheable, Normalize;
    var w' := Next(config, w, step).value;
    match step
    case Lookup(id, query, parameters, now) =>
      SlotsAfterGet(config.limits, w.cache, Normalize(config.parse, query), now);
      assert w'.cache.slots[i] in w.cache.slots;
    case Store(id, now) =>
      var a := w.handlers[id].answer;
      assert HandlerOk(w, id, w.handlers[id]);
      SlotsAfterSet(config.limits, w.cache, Normalize(config.parse, a.query), Cached(a, w.epoch, now), now);
      assert w'.cache.slots[i] in w.cache.slots || w'.cache.slots[i].value.answer == a;
    case _ =>
  }

  lemma EpochGrows(config: Config, w: World, step: Step)
    requires Next(config, w, step).Some?
    ensures Next(config, w, step).value.epoch == w.epoch + if Invalidates(w, step) then 1 else 0
    ensures Invalidates(w, step) ==> Next(config, w, step).value.cache.slots == []
  {
    hide Lru.Get, Lru.Set, IsCacheable, Normalize;
  }

  lemma StraddledOneStepLonger(config: Config, steps: seq<Step>, x: Execution, epoch: nat)
    requires steps != [] && StraddledAll(config, steps[..|steps| - 1], x, epoch)
    ensures StraddledAll(config, steps, x, epoch)
  {
    hide Straddles;
    forall e: nat | x.startEpoch <= e < epoch ensures Straddles(config, steps, x, e) {
      StraddlesLonger(config, steps, x, e);
    }
  }

  /** An execution in flight before the last step was so at every invalidation up to and including that step. */
  lemma InFlightStraddled(config: Config, steps: seq<Step>, id: nat)
    requires steps != [] && Run(config, steps).Some?
    requires OldOnesStraddled(config, steps[..|steps| - 1], Run(config, steps[..|steps| - 1]).value)
    requires var w := Run(config, steps[..|steps| - 1]).value; id in w.handlers && MayStore(w.handlers[id])
    ensures var w := Run(config, steps[..|steps| - 1]).value;
      StraddledAll(config, steps, ExecutionOf(id, w.handlers[id]), Run(config, steps).value.epoch)
  {
    hide Next, Invalidates, StraddledAll, Straddles, StraddlesAt;
    var before, step := steps[..|steps| - 1], steps[|steps| - 1];
    var w := Run(config, before).value;
    var x := ExecutionOf(id, w.handlers[id]);
    EpochGrows(config, w, step);
    StraddledOneStepLonger(config, steps, x, w.epoch);
    if Invalidates(w, step) {
      InvalidationIsStraddled(config, steps, x);
      StraddledOneMore(config, steps, x, w.epoch);
    }
  }

  lemma InvalidationIsStraddled(config: Config, steps: seq<Step>, x: Execution)
    requires steps != [] && Run(config, steps[..|steps| - 1]).Some?
    requires var w := Run(config, steps[..|steps| - 1]).value;
      && Invalidates(w, steps[|steps| - 1])
      && x.handler in w.handlers && MayStore(w.handlers[x.handler]) && ExecutionOf(x.handler, w.handlers[x.handler]) == x
    ensures Straddles(config, steps, x, Run(config, steps[..|steps| - 1]).value.epoch)
  {
    hide Run, Invalidates;
    assert StraddlesAt(config, steps, |steps| - 1, x, Run(config, steps[..|steps| - 1]).value.epoch);
  }

  lemma StraddledOneMore(config: Config, steps: seq<Step>, x: Execution, epoch: nat)
    requires StraddledAll(config, steps, x, epoch) && Straddles(config, steps, x, epoch)
    ensures StraddledAll(config, steps, x, epoch + 1)
  {
    hide Straddles;
  }

  lemma {:induction false} RunOldOnesStraddled(config: Config, steps: seq<Step>)
    requires Run(config, steps).Some?
    ensures OldOnesStraddled(config, steps, Run(config, steps).value)
  {
    hide Next, Inv, StraddledAll, Invalidates;
    if steps == [] {
    } else {
      var before, step := steps[..|steps| - 1], steps[|steps| - 1];
      var w, w' := Run(config, before).value, Run(config, steps).value;
      RunKeepsInv(config, before);
      RunOldOnesStraddled(config, before);
      EpochGrows(config, w, step);
      forall id | id in w'.handlers && MayStore(w'.handlers[id])
        ensures StraddledAll(config, steps, ExecutionOf(id, w'.handlers[id]), w'.epoch)
      {
        HandlerOrigin(config, w, step, id);
        if id in w.handlers && MayStore(w.handlers[id]) && ExecutionOf(id, w.handlers[id]) == ExecutionOf(id, w'.handlers[id]) {
          InFlightStraddled(config, steps, id);
        } else {
          NewOnesStraddleNothing(config, steps, ExecutionOf(id, w'.handlers[id]), w'.epoch);
        }
      }
      forall i | 0 <= i < |w'.cache.slots|
        ensures StraddledAll(config, steps, ExecutionBehind(w'.cache.slots[i].value.answer), w'.epoch)
      {
        SlotOrigin(config, w, step, i);
        var a := w'.cache.slots[i].value.answer;
        if j :| 0 <= j < |w.cache.slots| && w.cache.slots[j].value.answer == a {
          assert w'.epoch == w.epoch;
          StraddledOneStepLonger(config, steps, ExecutionBehind(a), w.epoch);
        } else {
          InFlightStraddled(config, steps, a.handler);
        }
      }
    }
  }

  lemma NewOnesStraddleNothing(config: Config, steps: seq<Step>, x: Execution, epoch: nat)
    requires x.startEpoch >= epoch
    ensures StraddledAll(config, steps, x, epoch)
  {
  }

  // ---- The promises ----

  /** A hit is the stored value of the query's key. */
  lemma HitIsASlot(config: Config, w: World, query: string, parameters: nat, now: nat) returns (i: nat)
    requires Hit(config, w, query, parameters, now).Some?
    ensures i < |w.cache.slots| && w.cache.slots[i].value == Hit(config, w, query, parameters, now).value
    ensures w.cache.slots[i].key == Normalize(config.parse, query)
    ensures now <= w.cache.slots[i].insertedAt + config.limits.ttl
  {
    i := Lru.Find(w.cache.slots, Normalize(config.parse, query)).value;
  }

  /**
   In any interleaving, a hit answers a parameterless read-only query with the
   result of one that asks the same, stored since the last invalidation and no
   longer than one time to live ago.
   */
  lemma HitsAreOwnAndRecent(config: Config, steps: seq<Step>, query: string, parameters: nat, now: nat)
    requires Run(config, steps).Some? && Hit(config, Run(config, steps).value, query, parameters, now).Some?
    ensures var w, hit := Run(config, steps).value, Hit(config, Run(config, steps).value, query, parameters, now).value;
      && Normalize(config.parse, hit.answer.query) == Normalize(config.parse, query)
      && AskTheSame(config.parse, hit.answer.query, query)
      && parameters == 0 && ReadsOnly(query) && ReadsOnly(hit.answer.query)
      && hit.storedEpoch == w.epoch && now <= hit.storedAt + config.limits.ttl
      && Fresh(w, hit.answer)
  {
    hide Lru.Get, Lru.Set, IsCacheable, Normalize, Next, Run, ReadsOnly, AskTheSame;
    var w := Run(config, steps).value;
    RunKeepsInv(config, steps);
    var i := HitIsASlot(config, w, query, parameters, now);
    assert SlotOk(config, w, w.cache.slots[i]);
    CacheIsForReadsOnly(query, parameters);
    CacheIsForReadsOnly(w.cache.slots[i].value.answer.query, 0);
    EqualKeysAskTheSame(config.parse, w.cache.slots[i].value.answer.query, query);
  }

  lemma OldHitStraddled(config: Config, steps: seq<Step>, query: string, parameters: nat, now: nat)
    requires Run(config, steps).Some? && Hit(config, Run(config, steps).value, query, parameters, now).Some?
    ensures var w, hit := Run(config, steps).value, Hit(config, Run(config, steps).value, query, parameters, now).value;
      hit.answer.startEpoch < w.epoch ==> Straddles(config, steps, ExecutionBehind(hit.answer), w.epoch - 1)
  {
    hide Lru.Get, Lru.Set, IsCacheable, Normalize, Next, Run, Straddles;
    RunOldOnesStraddled(config, steps);
    var i := HitIsASlot(config, Run(config, steps).value, query, parameters, now);
    assert StraddledAll(config, steps, ExecutionBehind(Run(config, steps).value.cache.slots[i].value.answer), Run(config, steps).value.epoch);
  }

  lemma CoveredEventsAreBelowFloor(config: Config, steps: seq<Step>)
    requires Run(config, steps).Some?
    ensures EventsOk(Run(config, steps).value)
  {
    RunKeepsInv(config, steps);
  }

  /**
   A hit that misses a change signalled by an event marked before the last
   invalidation comes from an execution of its own query that started before that
   invalidation and was in flight, its result still to be stored, when it happened.
   */
  lemma StaleHitsAreStraddlers(config: Config, steps: seq<Step>, query: string, parameters: nat, now: nat, event: string)
    requires Run(config, steps).Some? && Hit(config, Run(config, steps).value, query, parameters, now).Some?
    requires event in Run(config, steps).value.covered
    ensures event in Run(config, steps).value.events
    ensures var w, hit := Run(config, steps).value, Hit(config, Run(config, steps).value, query, parameters, now).value;
      hit.answer.reflects < w.events[event] ==>
        && hit.answer.startEpoch < hit.storedEpoch == w.epoch
        && AskTheSame(config.parse, hit.answer.query, query)
        && Straddles(config, steps, ExecutionBehind(hit.answer), w.epoch - 1)
  {
    hide Hit, IsCacheable, Normalize, Next, Run, Straddles;
    CoveredEventsAreBelowFloor(config, steps);
    HitsAreOwnAndRecent(config, steps, query, parameters, now);
    OldHitStraddled(config, steps, query, parameters, now);
  }

  /** At no invalidation of the run was a query in flight that may store its result; others may be. */
  ghost predicate NoStorableQueryInFlightAtInvalidation(config: Config, steps: seq<Step>) {
    forall i | 0 <= i < |steps| && Run(config, steps[..i]).Some? && Invalidates(Run(config, steps[..i]).value, steps[i]) ::
      forall id | id in Run(config, steps[..i]).value.handlers :: !MayStore(Run(config, steps[..i]).value.handlers[id])
  }

  lemma ThenNoneStraddles(config: Config, steps: seq<Step>, x: Execution, instant: nat)
    requires NoStorableQueryInFlightAtInvalidation(config, steps)
    ensures !Straddles(config, steps, x, instant)
  {
    hide Run, Invalidates;
    forall i: nat ensures !StraddlesAt(config, steps, i, x, instant) {
    }
  }

  /** Absent such queries, once the listener is idle every hit reflects every change a marked event signals. */
  lemma HitsAreFreshWithoutStraddlers(config: Config, steps: seq<Step>, query: string, parameters: nat, now: nat)
    requires Run(config, steps).Some? && NoStorableQueryInFlightAtInvalidation(config, steps)
    requires Hit(config, Run(config, steps).value, query, parameters, now).Some?
    ensures var w, hit := Run(config, steps).value, Hit(config, Run(config, steps).value, query, parameters, now).value;
      && (forall p | p in w.covered :: p in w.events && hit.answer.reflects >= w.events[p])
      && (w.listener == Idle ==> w.covered == w.marked)
  {
    hide Hit, IsCacheable, Normalize, Next, Run, StraddlesAt;
    CoveredEventsAreBelowFloor(config, steps);
    forall p | p in Run(config, steps).value.covered
      ensures p in Run(config, steps).value.events
      ensures Hit(config, Run(config, steps).value, query, parameters, now).value.answer.reflects >= Run(config, steps).value.events[p]
    {
      StaleHitsAreStraddlers(config, steps, query, parameters, now, p);
      var w, a := Run(config, steps).value, Hit(config, Run(config, steps).value, query, parameters, now).value.answer;
      if a.reflects < w.events[p] {
        ThenNoneStraddles(config, steps, ExecutionBehind(a), w.epoch - 1);
      }
    }
  }

  // ---- Every query is answered once ----

  /** Whether a step that is enabled starts an execution, and whether it ends one. */
  predicate Starts(config: Config, w: World, step: Step) {
    step.Lookup? && Hit(config, w, step.query, step.parameters, step.now).None?
  }

  predicate Ends(w: World, step: Step) {
    step.Fail? || step.Store? || (step.Finish? && step.id in w.handlers && !MayStore(w.handlers[step.id]))
  }

  /** How many lookups of the run were hits. */
  function HitsServed(config: Config, steps: seq<Step>): nat {
    if steps == [] then 0
    else
      var before, step := steps[..|steps| - 1], steps[|steps| - 1];
      HitsServed(config, before)
      + if step.Lookup? && Run(config, before).Some? && Hit(config, Run(config, before).value, step.query, step.parameters, step.now).Some? then 1
        else 0
  }

  function Lookups(steps: seq<Step>): nat {
    if steps == [] then 0 else Lookups(steps[..|steps| - 1]) + if steps[|steps| - 1].Lookup? then 1 else 0
  }

  /** How many executions of the run ended: failed, stored, or finished with a result that is not kept. */
  function Ended(config: Config, steps: seq<Step>): nat {
    if steps == [] then 0
    else
      var before, step := steps[..|steps| - 1], steps[|steps| - 1];
      Ended(config, before) + if Run(config, before).Some? && Ends(Run(config, before).value, step) then 1 else 0
  }

  lemma LookupCounts(config: Config, w: World, step: Step)
    requires step.Lookup? && Next(config, w, step).Some?
    ensures |Next(config, w, step).value.handlers| == |w.handlers| + if Starts(config, w, step) then 1 else 0
  {
    hide Hit, Lru.Get, MayUseCache, Normalize;
    UpdateSize(w.handlers, step.id, Executing(step.query, MayUseCache(step.query, step.parameters), w.epoch, w.version));
  }

  lemma HandlerStepCounts(config: Config, w: World, step: Step)
    requires (step.Finish? || step.Fail? || step.Store?) && Next(config, w, step).Some?
    ensures |Next(config, w, step).value.handlers| == |w.handlers| - if Ends(w, step) then 1 else 0
  {
    hide Lru.Set, Normalize;
    RemovalSize(w.handlers, step.id);
    if step.Finish? {
      var h := w.handlers[step.id];
      UpdateSize(w.handlers, step.id, Storing(Answer(h.query, step.id, h.startEpoch, step.reflects)));
    }
  }

  lemma OtherStepCounts(config: Config, w: World, step: Step)
    requires !step.Lookup? && !step.Finish? && !step.Fail? && !step.Store? && Next(config, w, step).Some?
    ensures Next(config, w, step).value.handlers == w.handlers
  {
  }

  lemma UpdateSize<T>(m: map<nat, T>, id: nat, x: T)
    ensures |m[id := x]| == |m| + if id in m then 0 else 1
  {
    if id in m {
      assert m[id := x].Keys == m.Keys;
    } else {
      assert m[id := x].Keys == m.Keys + {id};
    }
  }

  lemma RemovalSize<T>(m: map<nat, T>, id: nat)
    requires id in m
    ensures |m - {id}| == |m| - 1
  {
    assert (m - {id}).Keys == m.Keys - {id};
  }

  /** In every run each lookup is a hit, or an execution that has ended or is still in flight: none is lost, none is run twice. */
  lemma {:induction false} EveryLookupIsAccountedFor(config: Config, steps: seq<Step>)
    requires Run(config, steps).Some?
    ensures Lookups(steps) == HitsServed(config, steps) + Ended(config, steps) + |Run(config, steps).value.handlers|
  {
    hide Next, Hit;
    if steps == [] {
    } else {
      var before, step := steps[..|steps| - 1], steps[|steps| - 1];
      var w := Run(config, before).value;
      EveryLookupIsAccountedFor(config, before);
      if step.Lookup? {
        LookupCounts(config, w, step);
      } else if step.Finish? || step.Fail? || step.Store? {
        HandlerStepCounts(config, w, step);
      } else {
        OtherStepCounts(config, w, step);
      }
    }
  }

  // ---- Freshness without that condition does not hold ----

  lemma Then(config: Config, steps: seq<Step>, w: World, step: Step, w': World)
    requires Run(config, steps) == Some(w) && Next(config, w, step) == Some(w')
    ensures Run(config, steps + [step]) == Some(w')
  {
    assert (steps + [step])[..|steps + [step]| - 1] == steps;
  }

  /** The world after one missed lookup. */
  function OneMiss(): Lru.State<Cached> {
    Lru.State([], 0, 1, 0, 0)
  }

  /** A query misses; while it executes, the data changes and the change is signalled. */
  lemma QueryThenChange(config: Config, query: string, event: string) returns (steps: seq<Step>, w: World)
    requires MayUseCache(query, 0)
    ensures Run(config, steps) == Some(w)
    ensures w == World(OneMiss(), map[0 := Storing(Answer(query, 0, 0, 0))], Idle, 1, map[event := 1], {}, 0, {}, 0)
  {
    hide Run, IsCacheable, Normalize;
    assert Run(config, []) == Some(Start()) by {
      EmptyRun(config);
    }
    var w1 := Start().(cache := OneMiss(), handlers := map[0 := Executing(query, true, 0, 0)]);
    Then(config, [], Start(), Lookup(0, query, 0, 0), w1);
    steps := [] + [Lookup(0, query, 0, 0)];
    var w2 := w1.(version := 1);
    Then(config, steps, w1, ChangeData, w2);
    steps := steps + [ChangeData];
    var w3 := w2.(events := map[event := 1]);
    Then(config, steps, w2, SignalChange(event), w3);
    steps := steps + [SignalChange(event)];
    w := w3.(handlers := map[0 := Storing(Answer(query, 0, 0, 0))]);
    assert w3.handlers[0 := Storing(Answer(query, 0, 0, 0))] == w.handlers;
    Then(config, steps, w3, Finish(0, 0), w);
    steps := steps + [Finish(0, 0)];
  }

  lemma EmptyRun(config: Config)
    ensures Run(config, []) == Some(Start())
  {
  }

  /** The listener takes the event and finds the cache empty. */
  lemma SyncFindsNothing(config: Config, steps: seq<Step>, w: World, event: string) returns (steps': seq<Step>, w': World)
    requires Run(config, steps) == Some(w) && w.listener == Idle && event in w.events && event !in w.marked && w.cache.slots == []
    ensures Run(config, steps') == Some(w')
    ensures w' == w.(marked := w.marked + {event}, epoch := w.epoch + 1, covered := w.marked + {event}, floor := w.version)
  {
    hide Run;
    var w1 := w.(listener := Marking(0));
    Then(config, steps, w, BeginSync, w1);
    var w2 := w1.(listener := Marking(1), marked := w.marked + {event});
    Then(config, steps + [BeginSync], w1, Mark(event), w2);
    var w3 := w2.(listener := Checking);
    Then(config, steps + [BeginSync] + [Mark(event)], w2, EndMarking, w3);
    w' := Invalidated(w3);
    Then(config, steps + [BeginSync] + [Mark(event)] + [EndMarking], w3, CheckEmpty, w');
    steps' := steps + [BeginSync] + [Mark(event)] + [EndMarking] + [CheckEmpty];
  }

  /**
   A query that executes across an invalidation stores its old result after it:
   for every cacheable query there is a run that ends idle, every event marked and
   covered, and serves a result that misses the change the event signals.
   */
  lemma StraddlerCanServeStaleResult(config: Config, query: string, event: string) returns (steps: seq<Step>)
    requires MayUseCache(query, 0) && config.limits.maxEntries > 0
    ensures Run(config, steps).Some?
    ensures var w := Run(config, steps).value;
      && w.listener == Idle && w.covered == w.marked == {event} && event in w.events
      && Hit(config, w, query, 0, 0).Some? && Hit(config, w, query, 0, 0).value.answer.reflects < w.events[event]
  {
    hide Run, IsCacheable, Normalize;
    var before, w := QueryThenChange(config, query, event);
    var synced, w' := SyncFindsNothing(config, before, w, event);
    var stored := Lru.Slot(Normalize(config.parse, query), Cached(Answer(query, 0, 0, 0), 1, 0), 0);
    var w'' := w'.(cache := OneMiss().(slots := [stored]), handlers := map[]);
    assert Next(config, w', Store(0, 0)).value.cache.slots == [stored];
    Then(config, synced, w', Store(0, 0), w'');
    steps := synced + [Store(0, 0)];
  }
}
