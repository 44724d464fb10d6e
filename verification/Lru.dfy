/** The cache as a recency list, most recently used first: what `Cache` refines (src/cache_layer.rs, lines 106-260). */
module Lru {
  import opened Options

  datatype Slot<V> = Slot(key: string, value: V, insertedAt: nat)

  datatype State<V> = State(slots: seq<Slot<V>>, hits: nat, misses: nat, evictionsLru: nat, evictionsTtl: nat)

  /** Capacity and time to live; both are positive. */
  datatype Limits = Limits(maxEntries: nat, ttl: nat)

  ghost predicate Distinct<V>(slots: seq<Slot<V>>) {
    forall i, j | 0 <= i < j < |slots| :: slots[i].key != slots[j].key
  }

  ghost predicate Bounded<V>(limits: Limits, s: State<V>) {
    Distinct(s.slots) && |s.slots| <= limits.maxEntries
  }

  function Init<V>(): State<V> {
    State([], 0, 0, 0, 0)
  }

  /** `Instant::duration_since` saturates: a clock read earlier than the insertion gives age zero. */
  function Age(now: nat, insertedAt: nat): nat {
    if now > insertedAt then now - insertedAt else 0
  }

  function Find<V>(slots: seq<Slot<V>>, key: string): (r: Option<nat>)
    ensures r.Some? ==> r.value < |slots| && slots[r.value].key == key
    ensures r.None? ==> forall i | 0 <= i < |slots| :: slots[i].key != key
  {
    if slots == [] then None
    else if slots[0].key == key then Some(0)
    else
      match Find(slots[1..], key)
      case Some(i) => assert slots[i + 1] == slots[1..][i]; Some(i + 1)
      case None =>
        assert forall i | 0 < i < |slots| :: slots[i] == slots[1..][i - 1];
        None
  }

  function RemoveAt<V>(slots: seq<Slot<V>>, i: nat): seq<Slot<V>>
    requires i < |slots|
  {
    slots[..i] + slots[i + 1..]
  }

  function Without<V>(slots: seq<Slot<V>>, key: string): seq<Slot<V>> {
    match Find(slots, key)
    case Some(i) => RemoveAt(slots, i)
    case None => slots
  }

  /** A live hit moves to the front and keeps its age; an expired entry is dropped. */
  function Get<V>(limits: Limits, s: State<V>, key: string, now: nat): (State<V>, Option<V>) {
    match Find(s.slots, key)
    case None => (s.(misses := s.misses + 1), None)
    case Some(i) =>
      if Age(now, s.slots[i].insertedAt) <= limits.ttl then
        (s.(slots := [s.slots[i]] + RemoveAt(s.slots, i), hits := s.hits + 1), Some(s.slots[i].value))
      else
        (s.(slots := RemoveAt(s.slots, i), evictionsTtl := s.evictionsTtl + 1, misses := s.misses + 1), None)
  }

  /** A new key at capacity drops the last slot; the entry goes to the front. */
  function Set<V>(limits: Limits, s: State<V>, key: string, value: V, now: nat): State<V> {
    var slot := Slot(key, value, now);
    match Find(s.slots, key)
    case Some(i) => s.(slots := [slot] + RemoveAt(s.slots, i))
    case None =>
      if s.slots != [] && |s.slots| >= limits.maxEntries then
        s.(slots := [slot] + s.slots[..|s.slots| - 1], evictionsLru := s.evictionsLru + 1)
      else s.(slots := [slot] + s.slots)
  }

  function Clear<V>(s: State<V>): State<V> {
    s.(slots := [])
  }

  // ---- Histories ----

  datatype Op<V> = GetOp(key: string, now: nat) | SetOp(key: string, value: V, now: nat) | ClearOp

  function Apply<V>(limits: Limits, s: State<V>, op: Op<V>): State<V> {
    match op
    case GetOp(key, now) => Get(limits, s, key, now).0
    case SetOp(key, value, now) => Set(limits, s, key, value, now)
    case ClearOp => Clear(s)
  }

  /** What an operation answers: only a get answers something. */
  function Reply<V>(limits: Limits, s: State<V>, op: Op<V>): Option<V> {
    match op
    case GetOp(key, now) => Get(limits, s, key, now).1
    case _ => None
  }

  /** The state after a history. */
  function RunFrom<V>(limits: Limits, s: State<V>, ops: seq<Op<V>>): State<V> {
    if ops == [] then s else Apply(limits, RunFrom(limits, s, ops[..|ops| - 1]), ops[|ops| - 1])
  }

  /** The state after a history, from an empty cache. */
  function Run<V>(limits: Limits, ops: seq<Op<V>>): State<V> {
    RunFrom(limits, Init(), ops)
  }

  // ---- Every entry is the most recent set of its key ----

  /** Operation `i` of the history is the set that `slot` comes from: none of its key, and no clear, came later. */
  ghost predicate LastSetOf<V>(ops: seq<Op<V>>, i: nat, slot: Slot<V>) {
    && i < |ops|
    && ops[i] == SetOp(slot.key, slot.value, slot.insertedAt)
    && forall j | i < j < |ops| :: !ops[j].ClearOp? && !(ops[j].SetOp? && ops[j].key == slot.key)
  }

  /** Where a slot was before an operation that did not just insert it; its key is not the one set. */
  lemma OldSlot<V>(limits: Limits, s: State<V>, op: Op<V>, n: nat) returns (m: nat)
    requires Distinct(s.slots) && n < |Apply(limits, s, op).slots| && !(op.SetOp? && n == 0)
    ensures m < |s.slots| && s.slots[m] == Apply(limits, s, op).slots[n]
    ensures op.SetOp? ==> op.key != s.slots[m].key
  {
    match op
    case GetOp(key, now) =>
      var found := Find(s.slots, key);
      if found.None? {
        m := n;
      } else if Age(now, s.slots[found.value].insertedAt) <= limits.ttl {
        m := if n == 0 then found.value else if n <= found.value then n - 1 else n;
      } else {
        m := if n < found.value then n else n + 1;
      }
    case SetOp(key, _, _) =>
      var found := Find(s.slots, key);
      m := if found.Some? && n > found.value then n else n - 1;
  }

  lemma RemovalIsDistinct<V>(slots: seq<Slot<V>>, i: nat)
    requires Distinct(slots) && i < |slots|
    ensures Distinct(RemoveAt(slots, i))
    ensures forall n | 0 <= n < |RemoveAt(slots, i)| :: RemoveAt(slots, i)[n].key != slots[i].key
  {
    forall n | 0 <= n < |RemoveAt(slots, i)| ensures RemoveAt(slots, i)[n] == slots[if n < i then n else n + 1] {
    }
  }

  lemma PushIsDistinct<V>(slot: Slot<V>, slots: seq<Slot<V>>)
    requires Distinct(slots) && forall n | 0 <= n < |slots| :: slots[n].key != slot.key
    ensures Distinct([slot] + slots)
  {
  }

  lemma ApplyKeepsDistinct<V>(limits: Limits, s: State<V>, op: Op<V>)
    requires Distinct(s.slots)
    ensures Distinct(Apply(limits, s, op).slots)
  {
    if op.ClearOp? {
    } else {
      var found := Find(s.slots, op.key);
      if found.Some? {
        RemovalIsDistinct(s.slots, found.value);
        hide Find, RemoveAt, Distinct;
        PushIsDistinct(if op.SetOp? then Slot(op.key, op.value, op.now) else s.slots[found.value], RemoveAt(s.slots, found.value));
      } else if op.SetOp? {
        PushIsDistinct(Slot(op.key, op.value, op.now), s.slots);
        if s.slots != [] {
          PushIsDistinct(Slot(op.key, op.value, op.now), s.slots[..|s.slots| - 1]);
        }
      }
    }
  }

  lemma ApplyKeepsBounded<V>(limits: Limits, s: State<V>, op: Op<V>)
    requires Bounded(limits, s) && limits.maxEntries > 0
    ensures Bounded(limits, Apply(limits, s, op))
  {
    ApplyKeepsDistinct(limits, s, op);
    hide Distinct;
  }

  lemma {:induction false} RunIsDistinct<V>(limits: Limits, ops: seq<Op<V>>)
    ensures Distinct(Run(limits, ops).slots)
  {
    if ops != [] {
      RunIsDistinct(limits, ops[..|ops| - 1]);
      ApplyKeepsDistinct(limits, Run(limits, ops[..|ops| - 1]), ops[|ops| - 1]);
    }
  }

  lemma {:induction false} EntriesAreLastSets<V>(limits: Limits, ops: seq<Op<V>>, n: nat) returns (i: nat)
    requires n < |Run(limits, ops).slots|
    ensures LastSetOf(ops, i, Run(limits, ops).slots[n])
    decreases |ops|
  {
    hide Set, Get;
    var before := ops[..|ops| - 1];
    var op := ops[|ops| - 1];
    if op.SetOp? && n == 0 {
      i := |ops| - 1;
      SetGoesToFront(limits, Run(limits, before), op.key, op.value, op.now);
    } else {
      RunIsDistinct(limits, before);
      var m := OldSlot(limits, Run(limits, before), op, n);
      i := EntriesAreLastSets(limits, before, m);
    }
  }

  lemma SetGoesToFront<V>(limits: Limits, s: State<V>, key: string, value: V, now: nat)
    ensures Set(limits, s, key, value, now).slots != [] && Set(limits, s, key, value, now).slots[0] == Slot(key, value, now)
  {
  }

  /** The cache never holds more than its capacity, and no key twice. */
  lemma {:induction false} RunIsBounded<V>(limits: Limits, ops: seq<Op<V>>)
    requires limits.maxEntries > 0
    ensures Bounded(limits, Run(limits, ops))
  {
    if ops != [] {
      RunIsBounded(limits, ops[..|ops| - 1]);
      ApplyKeepsBounded(limits, Run(limits, ops[..|ops| - 1]), ops[|ops| - 1]);
    }
  }

  /**
   A hit, in any history, answers with the value of the most recent set of its
   key; no clear came since, and that set is at most the time to live ago, however
   often the entry was hit in between.
   */
  lemma HitAnswersLastSet<V>(limits: Limits, ops: seq<Op<V>>, key: string, now: nat) returns (i: nat)
    requires Reply(limits, Run(limits, ops), GetOp(key, now)).Some?
    ensures i < |ops| && ops[i].SetOp? && ops[i].key == key
    ensures Reply(limits, Run(limits, ops), GetOp(key, now)) == Some(ops[i].value)
    ensures now <= ops[i].now + limits.ttl
    ensures forall j | i < j < |ops| :: !ops[j].ClearOp? && !(ops[j].SetOp? && ops[j].key == key)
  {
    var n := Find(Run(limits, ops).slots, key).value;
    i := EntriesAreLastSets(limits, ops, n);
  }

  /** A key in the cache is answered exactly until the time to live has passed since its last set. */
  lemma PresentKeyIsAnsweredExactlyInTime<V>(limits: Limits, ops: seq<Op<V>>, key: string, now: nat) returns (i: nat)
    requires key in Keys(Run(limits, ops).slots)
    ensures i < |ops| && ops[i].SetOp? && ops[i].key == key
    ensures forall j | i < j < |ops| :: !ops[j].ClearOp? && !(ops[j].SetOp? && ops[j].key == key)
    ensures Reply(limits, Run(limits, ops), GetOp(key, now)) == if now <= ops[i].now + limits.ttl then Some(ops[i].value) else None
  {
    var n := Find(Run(limits, ops).slots, key).value;
    i := EntriesAreLastSets(limits, ops, n);
  }

  // ---- Survival: how long a touched key stays ----

  function Keys<V>(slots: seq<Slot<V>>): set<string> {
    set i | 0 <= i < |slots| :: slots[i].key
  }

  lemma {:induction false} DistinctKeysCount<V>(slots: seq<Slot<V>>)
    requires Distinct(slots)
    ensures |Keys(slots)| == |slots|
  {
    if slots != [] {
      var init := slots[..|slots| - 1];
      DistinctKeysCount(init);
      var last := slots[|slots| - 1];
      assert Keys(slots) == Keys(init) + {last.key};
      assert last.key !in Keys(init);
    }
  }

  lemma KeysOfPush<V>(slot: Slot<V>, slots: seq<Slot<V>>)
    ensures Keys([slot] + slots) == Keys(slots) + {slot.key}
  {
    var slots' := [slot] + slots;
    assert slots'[0].key in Keys(slots');
    forall i | 0 <= i < |slots| ensures slots[i].key in Keys(slots') {
      assert slots'[i + 1] == slots[i];
    }
  }

  lemma KeysOfRemoval<V>(slots: seq<Slot<V>>, i: nat)
    requires Distinct(slots) && i < |slots|
    ensures Keys(RemoveAt(slots, i)) == Keys(slots) - {slots[i].key}
  {
    var slots' := RemoveAt(slots, i);
    forall n | 0 <= n < |slots'| ensures slots'[n].key in Keys(slots) - {slots[i].key} {
      assert slots'[n] == slots[if n < i then n else n + 1];
    }
    forall n | 0 <= n < |slots| && n != i ensures slots[n].key in Keys(slots') {
      assert slots'[if n < i then n else n - 1] == slots[n];
    }
  }

  /** The operation sets the key, or gets it and is answered. */
  predicate Uses<V>(limits: Limits, s: State<V>, op: Op<V>, key: string) {
    match op
    case SetOp(k, _, _) => k == key
    case GetOp(k, _) => k == key && Reply(limits, s, op).Some?
    case ClearOp => false
  }

  lemma UseGoesToFront<V>(limits: Limits, s: State<V>, op: Op<V>, key: string)
    requires Uses(limits, s, op, key)
    ensures Apply(limits, s, op).slots != [] && Apply(limits, s, op).slots[0].key == key
  {
  }

  /** The keys other than `key` that an operation moves to the front. */
  function Touches<V>(limits: Limits, s: State<V>, op: Op<V>, key: string): set<string> {
    if (op.SetOp? || Reply(limits, s, op).Some?) && op.key != key then {op.key} else {}
  }

  function TouchedSince<V>(limits: Limits, s: State<V>, ops: seq<Op<V>>, key: string): set<string> {
    if ops == [] then {}
    else
      var before := ops[..|ops| - 1];
      TouchedSince(limits, s, before, key) + Touches(limits, RunFrom(limits, s, before), ops[|ops| - 1], key)
  }

  /** The operation neither clears the cache nor finds `key` expired. */
  predicate Spares<V>(limits: Limits, s: State<V>, op: Op<V>, key: string) {
    match op
    case ClearOp => false
    case GetOp(k, now) =>
      k == key && Find(s.slots, key).Some? ==> now <= s.slots[Find(s.slots, key).value].insertedAt + limits.ttl
    case SetOp(_, _, _) => true
  }

  /** `key` is present and only keys of `touched` are ahead of it. */
  ghost predicate PresentBehind<V>(slots: seq<Slot<V>>, key: string, touched: set<string>) {
    exists p | 0 <= p < |slots| :: slots[p].key == key && forall i | 0 <= i < p :: slots[i].key in touched
  }

  lemma PresentAt<V>(slots: seq<Slot<V>>, p: nat, key: string, touched: set<string>)
    requires p < |slots| && slots[p].key == key && forall i | 0 <= i < p :: slots[i].key in touched
    ensures PresentBehind(slots, key, touched)
  {
  }

  lemma MoveKeepsPresent<V>(slots: seq<Slot<V>>, found: nat, slot: Slot<V>, key: string, touched: set<string>)
    requires found < |slots| && slot.key == slots[found].key && PresentBehind(slots, key, touched)
    ensures PresentBehind([slot] + RemoveAt(slots, found), key, touched + (if slot.key == key then {} else {slot.key}))
  {
    var p :| 0 <= p < |slots| && slots[p].key == key && forall i | 0 <= i < p :: slots[i].key in touched;
    var q := if slot.key == key then 0 else if found < p then p else p + 1;
    PresentAt([slot] + RemoveAt(slots, found), q, key, touched + (if slot.key == key then {} else {slot.key}));
  }

  lemma DropKeepsPresent<V>(slots: seq<Slot<V>>, found: nat, key: string, touched: set<string>)
    requires found < |slots| && slots[found].key != key && PresentBehind(slots, key, touched)
    ensures PresentBehind(RemoveAt(slots, found), key, touched)
  {
    var p :| 0 <= p < |slots| && slots[p].key == key && forall i | 0 <= i < p :: slots[i].key in touched;
    PresentAt(RemoveAt(slots, found), if found < p then p - 1 else p, key, touched);
  }

  /** At capacity the last slot goes; were it `key`, every other slot and the new one would have been touched. */
  lemma PushKeepsPresent<V>(slots: seq<Slot<V>>, slot: Slot<V>, kept: nat, key: string, touched: set<string>)
    requires Distinct(slots) && PresentBehind(slots, key, touched)
    requires kept == |slots| || (kept == |slots| - 1 && |touched + {slot.key}| < |slots|)
    requires forall i | 0 <= i < |slots| :: slots[i].key != slot.key
    ensures PresentBehind([slot] + slots[..kept], key, touched + {slot.key})
  {
    var p :| 0 <= p < |slots| && slots[p].key == key && forall i | 0 <= i < p :: slots[i].key in touched;
    if p >= kept {
      var ahead := Keys(slots[..p]);
      DistinctKeysCount(slots[..p]);
      SubsetSize(ahead + {slot.key}, touched + {slot.key});
    }
    PresentAt([slot] + slots[..kept], p + 1, key, touched + {slot.key});
  }

  lemma StepKeepsPresent<V>(limits: Limits, s: State<V>, op: Op<V>, key: string, touched: set<string>)
    requires Bounded(limits, s) && Spares(limits, s, op, key) && PresentBehind(s.slots, key, touched)
    requires |touched + Touches(limits, s, op, key)| < limits.maxEntries
    ensures PresentBehind(Apply(limits, s, op).slots, key, touched + Touches(limits, s, op, key))
  {
    var found := Find(s.slots, op.key);
    if found.None? {
      if op.SetOp? {
        assert s.slots[..|s.slots|] == s.slots;
        PushKeepsPresent(s.slots, Slot(op.key, op.value, op.now), if |s.slots| >= limits.maxEntries then |s.slots| - 1 else |s.slots|,
                         key, touched);
      } else {
        assert touched + {} == touched;
      }
    } else if op.SetOp? {
      MoveKeepsPresent(s.slots, found.value, Slot(op.key, op.value, op.now), key, touched);
    } else if Reply(limits, s, op).Some? {
      MoveKeepsPresent(s.slots, found.value, s.slots[found.value], key, touched);
    } else {
      assert touched + {} == touched;
      DropKeepsPresent(s.slots, found.value, key, touched);
    }
  }

  lemma SubsetSize<T>(a: set<T>, b: set<T>)
    requires a <= b
    ensures |a| <= |b|
  {
    if a != b {
      assert b == a + (b - a) && a !! (b - a);
    }
  }

  /**
   Once set or hit, by whatever operation in whatever state, a key stays until at
   least `maxEntries` distinct other keys were set or hit, unless it expires or the
   cache is cleared.
   */
  lemma TouchedKeySurvives<V>(limits: Limits, s: State<V>, op: Op<V>, key: string, after: seq<Op<V>>)
    requires Bounded(limits, s) && limits.maxEntries > 0 && Uses(limits, s, op, key)
    requires forall j | 0 <= j < |after| :: Spares(limits, RunFrom(limits, Apply(limits, s, op), after[..j]), after[j], key)
    requires |TouchedSince(limits, Apply(limits, s, op), after, key)| < limits.maxEntries
    ensures key in Keys(RunFrom(limits, Apply(limits, s, op), after).slots)
  {
    var s' := Apply(limits, s, op);
    UseGoesToFront(limits, s, op, key);
    ApplyKeepsBounded(limits, s, op);
    PresentAfter(limits, s', key, after);
    hide Spares, TouchedSince, Apply;
    assert PresentBehind(RunFrom(limits, s', after).slots, key, TouchedSince(limits, s', after, key));
  }

  lemma {:induction false} PresentAfter<V>(limits: Limits, s: State<V>, key: string, after: seq<Op<V>>)
    requires Bounded(limits, s) && limits.maxEntries > 0
    requires s.slots != [] && s.slots[0].key == key
    requires forall j | 0 <= j < |after| :: Spares(limits, RunFrom(limits, s, after[..j]), after[j], key)
    requires |TouchedSince(limits, s, after, key)| < limits.maxEntries
    ensures PresentBehind(RunFrom(limits, s, after).slots, key, TouchedSince(limits, s, after, key))
    ensures Bounded(limits, RunFrom(limits, s, after))
  {
    hide Apply, PresentBehind, Spares;
    if after == [] {
      PresentAt(s.slots, 0, key, {});
    } else {
      var before, op := after[..|after| - 1], after[|after| - 1];
      forall j | 0 <= j < |before| ensures Spares(limits, RunFrom(limits, s, before[..j]), before[j], key) {
        assert before[..j] == after[..j];
      }
      SubsetSize(TouchedSince(limits, s, before, key), TouchedSince(limits, s, after, key));
      PresentAfter(limits, s, key, before);
      StepKeepsPresent(limits, RunFrom(limits, s, before), op, key, TouchedSince(limits, s, before, key));
      ApplyKeepsBounded(limits, RunFrom(limits, s, before), op);
    }
  }

  // ---- Capacity monotonicity ----

  /** `xs` is a subsequence of `ys`. */
  predicate Sub<T(==)>(xs: seq<T>, ys: seq<T>) {
    if xs == [] then true
    else if ys == [] then false
    else if xs[0] == ys[0] then Sub(xs[1..], ys[1..])
    else Sub(xs, ys[1..])
  }

  lemma {:induction false} SubMembers<T>(xs: seq<T>, ys: seq<T>)
    requires Sub(xs, ys)
    ensures |xs| <= |ys| && forall x | x in xs :: x in ys
  {
    if xs != [] {
      SubMembers(if xs[0] == ys[0] then xs[1..] else xs, ys[1..]);
      assert xs == [xs[0]] + xs[1..] && ys == [ys[0]] + ys[1..];
    }
  }

  lemma {:induction false} SubTail<T>(xs: seq<T>, ys: seq<T>)
    requires xs != [] && Sub(xs, ys)
    ensures Sub(xs[1..], ys)
  {
    if xs[0] == ys[0] {
      if |xs| > 1 && xs[1] == ys[0] {
        SubTail(xs[1..], ys[1..]);
      }
    } else {
      SubTail(xs, ys[1..]);
      if |xs| > 1 && xs[1] == ys[0] {
        SubTail(xs[1..], ys[1..]);
      }
    }
  }

  lemma SubPush<T>(x: T, xs: seq<T>, ys: seq<T>)
    requires Sub(xs, ys)
    ensures Sub([x] + xs, [x] + ys)
  {
    assert ([x] + xs)[1..] == xs && ([x] + ys)[1..] == ys;
  }

  lemma SubPushRight<T>(x: T, xs: seq<T>, ys: seq<T>)
    requires Sub(xs, ys)
    ensures Sub(xs, [x] + ys)
  {
    assert ([x] + ys)[1..] == ys;
    if xs != [] && xs[0] == x {
      SubTail(xs, ys);
    }
  }

  /** Dropping the last element of both, or of the shorter one, keeps the relation. */
  lemma {:induction false} SubInit<T>(xs: seq<T>, ys: seq<T>)
    requires xs != [] && Sub(xs, ys)
    ensures ys != [] && Sub(xs[..|xs| - 1], ys[..|ys| - 1]) && Sub(xs[..|xs| - 1], ys)
  {
    SubMembers(xs, ys);
    var xi, yi := xs[..|xs| - 1], ys[..|ys| - 1];
    if xs[0] == ys[0] {
      if |xs| > 1 {
        SubInit(xs[1..], ys[1..]);
        assert xi[1..] == xs[1..][..|xs[1..]| - 1] && yi[1..] == ys[1..][..|ys[1..]| - 1];
      }
    } else {
      SubInit(xs, ys[1..]);
      assert yi[1..] == ys[1..][..|ys[1..]| - 1];
    }
  }

  predicate NoKey<V>(slots: seq<Slot<V>>, key: string) {
    forall i | 0 <= i < |slots| :: slots[i].key != key
  }

  /** The slots of other keys, in order. */
  function Others<V>(slots: seq<Slot<V>>, key: string): seq<Slot<V>> {
    if slots == [] then []
    else (if slots[0].key == key then [] else [slots[0]]) + Others(slots[1..], key)
  }

  lemma {:induction false} OthersOfNoKey<V>(slots: seq<Slot<V>>, key: string)
    requires NoKey(slots, key)
    ensures Others(slots, key) == slots
  {
    if slots != [] {
      OthersOfNoKey(slots[1..], key);
    }
  }

  lemma {:induction false} OthersIsRemoval<V>(slots: seq<Slot<V>>, i: nat)
    requires Distinct(slots) && i < |slots|
    ensures Others(slots, slots[i].key) == RemoveAt(slots, i)
  {
    if i == 0 {
      OthersOfNoKey(slots[1..], slots[0].key);
      assert RemoveAt(slots, 0) == slots[1..];
    } else {
      OthersIsRemoval(slots[1..], i - 1);
      assert RemoveAt(slots, i) == [slots[0]] + RemoveAt(slots[1..], i - 1);
    }
  }

  lemma {:induction false} SubOthers<V>(xs: seq<Slot<V>>, ys: seq<Slot<V>>, key: string)
    requires Sub(xs, ys)
    ensures Sub(Others(xs, key), Others(ys, key))
  {
    if xs != [] {
      if xs[0] == ys[0] {
        SubOthers(xs[1..], ys[1..], key);
        if xs[0].key != key {
          SubPush(xs[0], Others(xs[1..], key), Others(ys[1..], key));
        } else {
          assert Others(xs, key) == Others(xs[1..], key) && Others(ys, key) == Others(ys[1..], key);
        }
      } else {
        SubOthers(xs, ys[1..], key);
        if ys[0].key != key {
          SubPushRight(ys[0], Others(xs, key), Others(ys[1..], key));
        } else {
          assert Others(ys, key) == Others(ys[1..], key);
        }
      }
    }
  }

  /** The smaller cache's entries are some of the larger's, in the same order, and the larger has no more to spare. */
  ghost predicate Included<V>(small: nat, s: State<V>, large: nat, l: State<V>) {
    && Distinct(s.slots) && Distinct(l.slots)
    && |s.slots| <= small && |l.slots| <= large
    && Sub(s.slots, l.slots)
    && |l.slots| - |s.slots| <= large - small
  }

  /** An entry of the smaller cache is the larger's entry for its key. */
  lemma SameEntry<V>(s: State<V>, l: State<V>, key: string)
    requires Distinct(l.slots) && Sub(s.slots, l.slots) && Find(s.slots, key).Some?
    ensures Find(l.slots, key).Some? && l.slots[Find(l.slots, key).value] == s.slots[Find(s.slots, key).value]
  {
    SubMembers(s.slots, l.slots);
    assert s.slots[Find(s.slots, key).value] in l.slots;
  }

  lemma RemovedLength<V>(slots: seq<Slot<V>>, key: string)
    requires Distinct(slots)
    ensures Others(slots, key) == Without(slots, key)
    ensures |Without(slots, key)| == |slots| - if Find(slots, key).Some? then 1 else 0
  {
    match Find(slots, key)
    case Some(i) => OthersIsRemoval(slots, i);
    case None => OthersOfNoKey(slots, key);
  }

  lemma GetKeepsInclusion<V>(small: Limits, s: State<V>, large: Limits, l: State<V>, key: string, now: nat)
    requires small.ttl == large.ttl && Included(small.maxEntries, s, large.maxEntries, l)
    ensures Included(small.maxEntries, Get(small, s, key, now).0, large.maxEntries, Get(large, l, key, now).0)
    ensures Get(small, s, key, now).1.Some? ==> Get(large, l, key, now).1 == Get(small, s, key, now).1
  {
    hide Find;
    SubOthers(s.slots, l.slots, key);
    RemovedLength(s.slots, key);
    RemovedLength(l.slots, key);
    ApplyKeepsDistinct(small, s, GetOp(key, now));
    ApplyKeepsDistinct(large, l, GetOp(key, now));
    var s', l' := Get(small, s, key, now).0, Get(large, l, key, now).0;
    var so, lo := Without(s.slots, key), Without(l.slots, key);
    if Find(s.slots, key).Some? {
      SameEntry(s, l, key);
      var slot := s.slots[Find(s.slots, key).value];
      if Age(now, slot.insertedAt) <= small.ttl {
        SubPush(slot, so, lo);
      }
    } else if Find(l.slots, key).Some? {
      var slot := l.slots[Find(l.slots, key).value];
      if Age(now, slot.insertedAt) <= large.ttl {
        SubPushRight(slot, so, lo);
      }
    }
  }

  lemma SetKeepsInclusion<V>(small: Limits, s: State<V>, large: Limits, l: State<V>, key: string, value: V, now: nat)
    requires 0 < small.maxEntries <= large.maxEntries && Included(small.maxEntries, s, large.maxEntries, l)
    ensures Included(small.maxEntries, Set(small, s, key, value, now), large.maxEntries, Set(large, l, key, value, now))
  {
    hide Find;
    SubOthers(s.slots, l.slots, key);
    RemovedLength(s.slots, key);
    RemovedLength(l.slots, key);
    ApplyKeepsDistinct(small, s, SetOp(key, value, now));
    ApplyKeepsDistinct(large, l, SetOp(key, value, now));
    var so, lo := Without(s.slots, key), Without(l.slots, key);
    var slot := Slot(key, value, now);
    if Find(s.slots, key).Some? {
      SameEntry(s, l, key);
      SubPush(slot, so, lo);
    } else {
      if s.slots != [] {
        SubInit(so, lo);
      }
      var sk := if s.slots != [] && |s.slots| >= small.maxEntries then so[..|so| - 1] else so;
      var lk := if Find(l.slots, key).None? && l.slots != [] && |l.slots| >= large.maxEntries then lo[..|lo| - 1] else lo;
      assert Sub(sk, lk);
      SubPush(slot, sk, lk);
    }
  }

  /**
   Capacity monotonicity: on one history with one clock, a larger cache always
   holds every entry of a smaller one, in the same order of recency.
   */
  lemma {:induction false} LargerCacheIncludesSmaller<V>(small: Limits, large: Limits, ops: seq<Op<V>>)
    requires 0 < small.maxEntries <= large.maxEntries && small.ttl == large.ttl
    ensures Included(small.maxEntries, Run(small, ops), large.maxEntries, Run(large, ops))
  {
    if ops != [] {
      var before, op := ops[..|ops| - 1], ops[|ops| - 1];
      LargerCacheIncludesSmaller(small, large, before);
      match op
      case GetOp(key, now) => GetKeepsInclusion(small, Run(small, before), large, Run(large, before), key, now);
      case SetOp(key, value, now) => SetKeepsInclusion(small, Run(small, before), large, Run(large, before), key, value, now);
      case ClearOp =>
    }
  }

  /** Hence it answers every get the smaller one answers, with the same value. */
  lemma LargerCacheAnswersMore<V>(small: Limits, large: Limits, ops: seq<Op<V>>, key: string, now: nat)
    requires 0 < small.maxEntries <= large.maxEntries && small.ttl == large.ttl
    requires Reply(small, Run(small, ops), GetOp(key, now)).Some?
    ensures Reply(large, Run(large, ops), GetOp(key, now)) == Reply(small, Run(small, ops), GetOp(key, now))
  {
    LargerCacheIncludesSmaller(small, large, ops);
    GetKeepsInclusion(small, Run(small, ops), large, Run(large, ops), key, now);
  }

  // ---- Conservation ----

  function Gets<V>(ops: seq<Op<V>>): nat {
    if ops == [] then 0 else Gets(ops[..|ops| - 1]) + if ops[|ops| - 1].GetOp? then 1 else 0
  }

  /** How many gets of a history were answered. */
  function Answered<V>(limits: Limits, ops: seq<Op<V>>): nat {
    if ops == [] then 0
    else
      var before, op := ops[..|ops| - 1], ops[|ops| - 1];
      Answered(limits, before) + if Reply(limits, Run(limits, before), op).Some? then 1 else 0
  }

  /** How many gets of a history found their key in the cache and no answer. */
  function Expirations<V>(limits: Limits, ops: seq<Op<V>>): nat {
    if ops == [] then 0
    else
      var before, op := ops[..|ops| - 1], ops[|ops| - 1];
      var s := Run(limits, before);
      Expirations(limits, before) + if op.GetOp? && op.key in Keys(s.slots) && Reply(limits, s, op).None? then 1 else 0
  }

  /** How many sets of a history brought in a key that was absent. */
  function Insertions<V>(limits: Limits, ops: seq<Op<V>>): nat {
    if ops == [] then 0
    else
      var before, op := ops[..|ops| - 1], ops[|ops| - 1];
      Insertions(limits, before) + if op.SetOp? && Find(Run(limits, before).slots, op.key).None? then 1 else 0
  }

  /** How many entries the clears of a history removed. */
  function ClearedEntries<V>(limits: Limits, ops: seq<Op<V>>): nat {
    if ops == [] then 0
    else
      var before, op := ops[..|ops| - 1], ops[|ops| - 1];
      ClearedEntries(limits, before) + if op.ClearOp? then |Run(limits, before).slots| else 0
  }

  /** Hits are the answered gets and misses the others; every inserted entry is alive, evicted, expired or cleared. */
  lemma {:induction false} CountersAddUp<V>(limits: Limits, ops: seq<Op<V>>)
    ensures Run(limits, ops).hits == Answered(limits, ops)
    ensures Run(limits, ops).hits + Run(limits, ops).misses == Gets(ops)
    ensures Run(limits, ops).evictionsTtl == Expirations(limits, ops)
    ensures Insertions(limits, ops)
         == |Run(limits, ops).slots| + Run(limits, ops).evictionsLru + Run(limits, ops).evictionsTtl + ClearedEntries(limits, ops)
  {
    if ops != [] {
      CountersAddUp(limits, ops[..|ops| - 1]);
    }
  }
}
