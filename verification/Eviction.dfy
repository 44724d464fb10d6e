/** Which key an insertion evicts: the one used least recently (src/cache_layer.rs, lines 162-232). */
module Eviction {
  import opened Options
  import opened Lru

  /** The last operation of the history that set the key, or got it and was answered. */
  function LastUse<V>(limits: Limits, ops: seq<Op<V>>, key: string): (r: Option<nat>)
    ensures r.Some? ==> r.value < |ops|
  {
    if ops == [] then None
    else
      var before := ops[..|ops| - 1];
      if Uses(limits, Run(limits, before), ops[|ops| - 1], key) then Some(|ops| - 1) else LastUse(limits, before, key)
  }

  /** `last` falls strictly along the list. */
  ghost predicate Falling<V>(slots: seq<Slot<V>>, last: string -> Option<nat>) {
    && (forall n | 0 <= n < |slots| :: last(slots[n].key).Some?)
    && (forall n, m | 0 <= n < m < |slots| :: last(slots[n].key).value > last(slots[m].key).value)
  }

  lemma FallingRemoval<V>(slots: seq<Slot<V>>, i: nat, last: string -> Option<nat>)
    requires Falling(slots, last) && i < |slots|
    ensures Falling(RemoveAt(slots, i), last)
  {
    forall n | 0 <= n < |RemoveAt(slots, i)| ensures RemoveAt(slots, i)[n] == slots[if n < i then n else n + 1] {
    }
  }

  lemma FallingPush<V>(slot: Slot<V>, slots: seq<Slot<V>>, last: string -> Option<nat>)
    requires Falling(slots, last) && last(slot.key).Some?
    requires forall n | 0 <= n < |slots| :: last(slot.key).value > last(slots[n].key).value
    ensures Falling([slot] + slots, last)
  {
  }

  /** The function changes for no key of the list. */
  lemma FallingSame<V>(slots: seq<Slot<V>>, last: string -> Option<nat>, last': string -> Option<nat>)
    requires Falling(slots, last) && forall n | 0 <= n < |slots| :: last'(slots[n].key) == last(slots[n].key)
    ensures Falling(slots, last')
  {
  }

  ghost function LastUses<V>(limits: Limits, ops: seq<Op<V>>): string -> Option<nat> {
    key => LastUse(limits, ops, key)
  }

  /** An operation changes the last use of no key but its own. */
  lemma OthersKeepLastUse<V>(limits: Limits, ops: seq<Op<V>>, op: Op<V>, key: string)
    requires !Uses(limits, Run(limits, ops), op, key)
    ensures LastUse(limits, ops + [op], key) == LastUse(limits, ops, key)
  {
    assert (ops + [op])[..|ops + [op]| - 1] == ops;
  }

  lemma UseIsLast<V>(limits: Limits, ops: seq<Op<V>>, op: Op<V>, key: string)
    requires Uses(limits, Run(limits, ops), op, key)
    ensures LastUse(limits, ops + [op], key) == Some(|ops|)
  {
    assert (ops + [op])[..|ops + [op]| - 1] == ops;
  }

  /** A used key in front of slots of other keys, all from before. */
  lemma UsedInFront<V>(limits: Limits, ops: seq<Op<V>>, op: Op<V>, slot: Slot<V>, others: seq<Slot<V>>)
    requires Uses(limits, Run(limits, ops), op, slot.key)
    requires Falling(others, LastUses(limits, ops)) && forall n | 0 <= n < |others| :: others[n].key != slot.key
    ensures Falling([slot] + others, LastUses(limits, ops + [op]))
  {
    hide LastUse, Reply;
    UseIsLast(limits, ops, op, slot.key);
    forall n | 0 <= n < |others| ensures LastUse(limits, ops + [op], others[n].key) == LastUse(limits, ops, others[n].key) {
      OthersKeepLastUse(limits, ops, op, others[n].key);
    }
    FallingSame(others, LastUses(limits, ops), LastUses(limits, ops + [op]));
    FallingPush(slot, others, LastUses(limits, ops + [op]));
  }

  lemma NothingUsed<V>(limits: Limits, ops: seq<Op<V>>, op: Op<V>, slots: seq<Slot<V>>)
    requires Falling(slots, LastUses(limits, ops)) && forall key :: !Uses(limits, Run(limits, ops), op, key)
    ensures Falling(slots, LastUses(limits, ops + [op]))
  {
    hide LastUse, Uses;
    forall n | 0 <= n < |slots| ensures LastUse(limits, ops + [op], slots[n].key) == LastUse(limits, ops, slots[n].key) {
      OthersKeepLastUse(limits, ops, op, slots[n].key);
    }
    FallingSame(slots, LastUses(limits, ops), LastUses(limits, ops + [op]));
  }

  lemma FallingStep<V>(limits: Limits, ops: seq<Op<V>>, op: Op<V>)
    requires Distinct(Run(limits, ops).slots) && Falling(Run(limits, ops).slots, LastUses(limits, ops))
    ensures Falling(Apply(limits, Run(limits, ops), op).slots, LastUses(limits, ops + [op]))
  {
    hide Falling, LastUses, Distinct, Run, RemoveAt;
    var s := Run(limits, ops);
    if op.ClearOp? {
      NoneFall<V>(LastUses(limits, ops + [op]));
    } else {
      var found := Find(s.slots, op.key);
      if found.Some? {
        RemovalIsDistinct(s.slots, found.value);
        FallingRemoval(s.slots, found.value, LastUses(limits, ops));
        var others := RemoveAt(s.slots, found.value);
        if Uses(limits, s, op, op.key) {
          UsedInFront(limits, ops, op, if op.SetOp? then Slot(op.key, op.value, op.now) else s.slots[found.value], others);
        } else {
          NothingUsed(limits, ops, op, others);
        }
      } else if op.SetOp? {
        var slot := Slot(op.key, op.value, op.now);
        UsedInFront(limits, ops, op, slot, s.slots);
        if s.slots != [] {
          FallingPrefix(s.slots, |s.slots| - 1, LastUses(limits, ops));
          UsedInFront(limits, ops, op, slot, s.slots[..|s.slots| - 1]);
        }
      } else {
        NothingUsed(limits, ops, op, s.slots);
      }
    }
  }

  lemma NoneFall<V>(last: string -> Option<nat>)
    ensures Falling<V>([], last)
  {
  }

  lemma FallingPrefix<V>(slots: seq<Slot<V>>, k: nat, last: string -> Option<nat>)
    requires Falling(slots, last) && k <= |slots|
    ensures Falling(slots[..k], last)
  {
  }

  /** After every history the list is in the order of last use, latest first. */
  lemma {:induction false} ListIsInOrderOfLastUse<V>(limits: Limits, ops: seq<Op<V>>)
    ensures Falling(Run(limits, ops).slots, LastUses(limits, ops))
  {
    hide Apply, LastUses, Falling;
    if ops == [] {
      NoneFall<V>(LastUses(limits, ops));
    } else {
      var before, op := ops[..|ops| - 1], ops[|ops| - 1];
      ListIsInOrderOfLastUse(limits, before);
      RunIsDistinct(limits, before);
      FallingStep(limits, before, op);
      assert before + [op] == ops;
    }
  }

  /** The keys in the cache after a history. */
  function Present<V>(limits: Limits, ops: seq<Op<V>>): set<string> {
    Keys(Run(limits, ops).slots)
  }

  /** The present key whose last use lies furthest back. */
  ghost predicate IsLeastRecentlyUsed<V>(limits: Limits, ops: seq<Op<V>>, key: string) {
    && key in Present(limits, ops) && LastUse(limits, ops, key).Some?
    && forall k | k in Present(limits, ops) && k != key ::
         LastUse(limits, ops, k).Some? && LastUse(limits, ops, k).value > LastUse(limits, ops, key).value
  }

  lemma LastIsLeastRecentlyUsed<V>(limits: Limits, ops: seq<Op<V>>)
    requires Run(limits, ops).slots != []
    ensures var slots := Run(limits, ops).slots; IsLeastRecentlyUsed(limits, ops, slots[|slots| - 1].key)
  {
    hide LastUse, Run;
    ListIsInOrderOfLastUse(limits, ops);
    var slots := Run(limits, ops).slots;
    var last := slots[|slots| - 1];
    assert LastUses(limits, ops)(last.key).Some?;
    forall k | k in Present(limits, ops) && k != last.key
      ensures LastUse(limits, ops, k).Some? && LastUse(limits, ops, k).value > LastUse(limits, ops, last.key).value
    {
      var n :| 0 <= n < |slots| && slots[n].key == k;
      assert LastUses(limits, ops)(slots[n].key).value > LastUses(limits, ops)(last.key).value;
    }
  }

  lemma KeysOfInit<V>(slots: seq<Slot<V>>)
    requires slots != [] && Distinct(slots)
    ensures Keys(slots[..|slots| - 1]) == Keys(slots) - {slots[|slots| - 1].key}
  {
    var init := slots[..|slots| - 1];
    forall i | 0 <= i < |init| ensures init[i].key in Keys(slots) - {slots[|slots| - 1].key} {
      assert init[i] == slots[i];
    }
    forall i | 0 <= i < |init| ensures slots[i].key in Keys(init) {
      assert init[i] == slots[i];
    }
  }

  lemma PresentIsFound<V>(slots: seq<Slot<V>>, key: string)
    ensures key in Keys(slots) <==> Find(slots, key).Some?
  {
  }

  /**
   After every history: a set brings its key in and puts no other out, unless the
   key is new and the cache is full; then exactly one goes, the present key whose
   last set or answered get lies furthest back.
   */
  lemma SetEvictsTheLeastRecentlyUsed<V>(limits: Limits, ops: seq<Op<V>>, key: string, value: V, now: nat) returns (evicted: set<string>)
    requires limits.maxEntries > 0
    ensures Present(limits, ops + [SetOp(key, value, now)]) == Present(limits, ops) - evicted + {key}
    ensures evicted == {} <==> key in Present(limits, ops) || |Present(limits, ops)| < limits.maxEntries
    ensures evicted != {} ==> exists e :: evicted == {e} && e != key && IsLeastRecentlyUsed(limits, ops, e)
  {
    hide LastUse, Run, Distinct, IsLeastRecentlyUsed, Apply, Keys;
    var slots := Run(limits, ops).slots;
    RunAfter(limits, ops, SetOp(key, value, now));
    RunIsDistinct(limits, ops);
    DistinctKeysCount(slots);
    SetKeys(limits, Run(limits, ops), key, value, now);
    if key in Keys(slots) || |slots| < limits.maxEntries {
      evicted := {};
    } else {
      LastIsLeastRecentlyUsed(limits, ops);
      evicted := {slots[|slots| - 1].key};
    }
  }

  /** The keys a set leaves. */
  lemma SetKeys<V>(limits: Limits, s: State<V>, key: string, value: V, now: nat)
    requires Distinct(s.slots) && limits.maxEntries > 0
    ensures var slots, after := s.slots, Apply(limits, s, SetOp(key, value, now)).slots;
      if key in Keys(slots) || |slots| < limits.maxEntries then Keys(after) == Keys(slots) + {key}
      else slots[|slots| - 1].key in Keys(slots) && Keys(after) == Keys(slots) - {slots[|slots| - 1].key} + {key}
  {
    hide Distinct;
    var slots, slot := s.slots, Slot(key, value, now);
    PresentIsFound(slots, key);
    if key in Keys(slots) {
      var i := Find(slots, key).value;
      KeysOfRemoval(slots, i);
      KeysOfPush(slot, RemoveAt(slots, i));
    } else if |slots| < limits.maxEntries {
      KeysOfPush(slot, slots);
    } else {
      KeysOfInit(slots);
      KeysOfPush(slot, slots[..|slots| - 1]);
      assert slots[|slots| - 1].key in Keys(slots);
    }
  }

  lemma RunAfter<V>(limits: Limits, ops: seq<Op<V>>, op: Op<V>)
    ensures Run(limits, ops + [op]) == Apply(limits, Run(limits, ops), op)
  {
    assert (ops + [op])[..|ops + [op]| - 1] == ops;
  }

  /** A get puts out no key but its own, and that exactly if it was there and is not answered. */
  lemma GetDropsOnlyAnExpiredKey<V>(limits: Limits, ops: seq<Op<V>>, key: string, now: nat)
    ensures Present(limits, ops + [GetOp(key, now)])
         == if Reply(limits, Run(limits, ops), GetOp(key, now)).Some? then Present(limits, ops) else Present(limits, ops) - {key}
  {
    hide Run, Distinct;
    var op: Op<V> := GetOp(key, now);
    var slots := Run(limits, ops).slots;
    RunAfter(limits, ops, op);
    RunIsDistinct(limits, ops);
    PresentIsFound(slots, key);
    if key in Keys(slots) {
      var i := Find(slots, key).value;
      KeysOfRemoval(slots, i);
      KeysOfPush(slots[i], RemoveAt(slots, i));
    }
  }
}
