/** The query-result cache: a tick-stamped map with TTL and LRU eviction (src/cache_layer.rs). */
module CacheLayer {
  import opened Options
  import opened Lru
  import opened NormalizeQuery

  datatype Entry<V> = Entry(batches: V, insertedAt: nat, lastUsed: nat)

  datatype CacheStats = CacheStats(hits: nat, misses: nat, evictionsLru: nat, evictionsTtl: nat, entries: nat)

  // ---- The stamped map represents the recency list ----

  ghost predicate Holds<V>(store: map<string, Entry<V>>, slot: Slot<V>) {
    slot.key in store && store[slot.key].batches == slot.value && store[slot.key].insertedAt == slot.insertedAt
  }

  /** The map and the list hold the same entries. */
  ghost predicate SameEntries<V>(store: map<string, Entry<V>>, slots: seq<Slot<V>>) {
    Distinct(slots) && store.Keys == Keys(slots) && forall i | 0 <= i < |slots| :: Holds(store, slots[i])
  }

  /** Stamps are at most `tick`, pairwise distinct, and fall along the list. */
  ghost predicate Stamped<V>(store: map<string, Entry<V>>, tick: nat, slots: seq<Slot<V>>) {
    && (forall i | 0 <= i < |slots| :: slots[i].key in store && store[slots[i].key].lastUsed <= tick)
    && (forall i, j | 0 <= i < j < |slots| :: store[slots[i].key].lastUsed > store[slots[j].key].lastUsed)
  }

  ghost predicate Represents<V>(store: map<string, Entry<V>>, tick: nat, slots: seq<Slot<V>>) {
    SameEntries(store, slots) && Stamped(store, tick, slots)
  }

  /** Re-stamping an entry, with old or new contents, moves its slot to the front. */
  lemma TouchRepresents<V>(store: map<string, Entry<V>>, tick: nat, slots: seq<Slot<V>>, i: nat, slot: Slot<V>)
    requires Represents(store, tick, slots) && i < |slots| && slots[i].key == slot.key
    ensures Represents(store[slot.key := Entry(slot.value, slot.insertedAt, tick + 1)], tick + 1, [slot] + RemoveAt(slots, i))
  {
    RemoveRepresents(store, tick, slots, i);
    hide Represents;
    InsertRepresents(store - {slot.key}, tick, RemoveAt(slots, i), slot);
    assert (store - {slot.key})[slot.key := Entry(slot.value, slot.insertedAt, tick + 1)]
        == store[slot.key := Entry(slot.value, slot.insertedAt, tick + 1)];
  }

  lemma InsertRepresents<V>(store: map<string, Entry<V>>, tick: nat, slots: seq<Slot<V>>, slot: Slot<V>)
    requires Represents(store, tick, slots) && slot.key !in store
    ensures Represents(store[slot.key := Entry(slot.value, slot.insertedAt, tick + 1)], tick + 1, [slot] + slots)
  {
    var entry := Entry(slot.value, slot.insertedAt, tick + 1);
    InsertSameEntries(store, slots, slot, tick + 1);
    InsertStamped(store, tick, slots, slot, entry);
  }

  lemma InsertSameEntries<V>(store: map<string, Entry<V>>, slots: seq<Slot<V>>, slot: Slot<V>, stamp: nat)
    requires SameEntries(store, slots) && slot.key !in store
    ensures SameEntries(store[slot.key := Entry(slot.value, slot.insertedAt, stamp)], [slot] + slots)
  {
    var store', slots' := store[slot.key := Entry(slot.value, slot.insertedAt, stamp)], [slot] + slots;
    KeysOfPush(slot, slots);
    assert store'.Keys == store.Keys + {slot.key};
    forall i | 0 <= i < |slots| ensures slots[i].key in store && Holds(store', slots[i]) {
      assert Holds(store, slots[i]);
    }
    assert forall i | 0 < i < |slots'| :: slots'[i] == slots[i - 1];
  }

  lemma InsertStamped<V>(store: map<string, Entry<V>>, tick: nat, slots: seq<Slot<V>>, slot: Slot<V>, entry: Entry<V>)
    requires Stamped(store, tick, slots) && slot.key !in store && entry.lastUsed == tick + 1
    ensures Stamped(store[slot.key := entry], tick + 1, [slot] + slots)
  {
    var store', slots' := store[slot.key := entry], [slot] + slots;
    forall i | 0 <= i < |slots'|
      ensures slots'[i].key in store' && store'[slots'[i].key] == if i == 0 then entry else store[slots[i - 1].key]
    {
    }
  }

  lemma RemoveRepresents<V>(store: map<string, Entry<V>>, tick: nat, slots: seq<Slot<V>>, i: nat)
    requires Represents(store, tick, slots) && i < |slots|
    ensures Represents(store - {slots[i].key}, tick, RemoveAt(slots, i))
  {
    RemoveSameEntries(store, slots, i);
    RemoveStamped(store, tick, slots, i);
  }

  lemma RemoveSameEntries<V>(store: map<string, Entry<V>>, slots: seq<Slot<V>>, i: nat)
    requires SameEntries(store, slots) && i < |slots|
    ensures SameEntries(store - {slots[i].key}, RemoveAt(slots, i))
  {
    var store', slots' := store - {slots[i].key}, RemoveAt(slots, i);
    KeysOfRemoval(slots, i);
    forall n | 0 <= n < |slots'| ensures Holds(store', slots'[n]) {
      var m := if n < i then n else n + 1;
      assert slots'[n] == slots[m] && Holds(store, slots[m]);
    }
  }

  lemma RemoveStamped<V>(store: map<string, Entry<V>>, tick: nat, slots: seq<Slot<V>>, i: nat)
    requires Stamped(store, tick, slots) && Distinct(slots) && i < |slots|
    ensures Stamped(store - {slots[i].key}, tick, RemoveAt(slots, i))
  {
    var store', slots' := store - {slots[i].key}, RemoveAt(slots, i);
    forall n | 0 <= n < |slots'|
      ensures slots'[n].key in store' && store'[slots'[n].key] == store[slots[if n < i then n else n + 1].key]
    {
      assert slots'[n] == slots[if n < i then n else n + 1];
    }
  }

  /** The key with the least stamp is unique: it is the last of the list. */
  lemma LeastStampIsLast<V>(store: map<string, Entry<V>>, tick: nat, slots: seq<Slot<V>>, key: string)
    requires Represents(store, tick, slots) && key in store
    requires forall k | k in store :: store[key].lastUsed <= store[k].lastUsed
    ensures slots != [] && slots[|slots| - 1].key == key
  {
    var i :| 0 <= i < |slots| && slots[i].key == key;
    assert Holds(store, slots[|slots| - 1]);
  }

  lemma StoreIsList<V>(store: map<string, Entry<V>>, tick: nat, slots: seq<Slot<V>>, key: string)
    requires Represents(store, tick, slots)
    ensures key in store <==> Find(slots, key).Some?
    ensures key in store ==> Holds(store, slots[Find(slots, key).value]) && slots[Find(slots, key).value].key == key
  {
    if Find(slots, key).Some? {
      assert Holds(store, slots[Find(slots, key).value]);
    }
  }

  /** Dropping the last slot's key drops the last slot. */
  lemma LastRemoved<V>(store: map<string, Entry<V>>, tick: nat, slots: seq<Slot<V>>)
    requires Represents(store, tick, slots) && slots != []
    ensures Represents(store - {slots[|slots| - 1].key}, tick, slots[..|slots| - 1])
  {
    hide Represents;
    RemoveRepresents(store, tick, slots, |slots| - 1);
    assert RemoveAt(slots, |slots| - 1) == slots[..|slots| - 1];
  }

  /** Storing an entry under the next tick puts its slot in front, in place of any slot of its key. */
  lemma StoreRepresents<V>(store: map<string, Entry<V>>, tick: nat, slots: seq<Slot<V>>, slot: Slot<V>)
    requires Represents(store, tick, slots)
    ensures slot.key in store <==> Find(slots, slot.key).Some?
    ensures Represents(store[slot.key := Entry(slot.value, slot.insertedAt, tick + 1)], tick + 1,
                       [slot] + if slot.key in store then RemoveAt(slots, Find(slots, slot.key).value) else slots)
  {
    hide Represents, Find, RemoveAt;
    StoreIsList(store, tick, slots, slot.key);
    if slot.key in store {
      TouchRepresents(store, tick, slots, Find(slots, slot.key).value, slot);
    } else {
      InsertRepresents(store, tick, slots, slot);
    }
  }

  /**
   `V` stands for the record batches. The clock is read before the lock is taken,
   so each operation receives the time it read, and times need not be ordered.
   */
  class Cache<V> {
    const maxEntries: nat
    const ttl: nat
    const parse: SqlParser

    var store: map<string, Entry<V>>
    var tick: nat
    var hits: nat
    var misses: nat
    var evictionsLru: nat
    var evictionsTtl: nat

    /** The entries by recency of use, most recent first. */
    ghost var slots: seq<Slot<V>>

    ghost predicate Valid()
      reads this
    {
      0 < maxEntries && 0 < ttl && |slots| <= maxEntries && Represents(store, tick, slots)
    }

    ghost function Limits(): Limits
      reads this
    {
      Lru.Limits(maxEntries, ttl)
    }

    ghost function Snapshot(): State<V>
      reads this
    {
      State(slots, hits, misses, evictionsLru, evictionsTtl)
    }

    constructor (maxEntries: nat, ttl: nat, parse: SqlParser)
      requires maxEntries > 0 && ttl > 0
      ensures Valid() && Snapshot() == Init()
      ensures this.maxEntries == maxEntries && this.ttl == ttl && this.parse == parse
    {
      this.maxEntries, this.ttl, this.parse := maxEntries, ttl, parse;
      store, tick, hits, misses, evictionsLru, evictionsTtl := map[], 0, 0, 0, 0, 0;
      slots := [];
    }

    method Get(sql: string, now: nat) returns (r: Option<V>)
      requires Valid()
      modifies this
      ensures Valid()
      ensures (Snapshot(), r) == Lru.Get(Limits(), old(Snapshot()), Normalize(parse, sql), now)
    {
      hide Represents, Find, Normalize;
      var key := Normalize(parse, sql);
      StoreIsList(store, tick, slots, key);
      ghost var found := Find(slots, key);
      if key !in store {
        StampsMayLag(store, tick, slots);
        tick := tick + 1;
        misses := misses + 1;
        return None;
      }
      var entry := store[key];
      ghost var i := found.value;
      if Age(now, entry.insertedAt) <= ttl {
        TouchRepresents(store, tick, slots, i, slots[i]);
        tick := tick + 1;
        store := store[key := entry.(lastUsed := tick)];
        hits := hits + 1;
        slots := [slots[i]] + RemoveAt(slots, i);
        return Some(entry.batches);
      } else {
        RemoveRepresents(store, tick, slots, i);
        StampsMayLag(store - {key}, tick, RemoveAt(slots, i));
        tick := tick + 1;
        store := store - {key};
        evictionsTtl := evictionsTtl + 1;
        misses := misses + 1;
        slots := RemoveAt(slots, i);
        return None;
      }
    }

    /** `min_by_key` over the map, in whatever order the map is iterated. */
    method FindLru() returns (lruKey: string)
      requires Valid() && store != map[]
      ensures slots != [] && lruKey == slots[|slots| - 1].key
    {
      hide Represents;
      var rest := store.Keys;
      assert exists k :: k in store;
      lruKey :| lruKey in rest;
      rest := rest - {lruKey};
      while rest != {}
        invariant lruKey in store && rest <= store.Keys
        invariant forall k | k in store && k !in rest :: store[lruKey].lastUsed <= store[k].lastUsed
      {
        var k :| k in rest;
        if store[k].lastUsed < store[lruKey].lastUsed {
          lruKey := k;
        }
        rest := rest - {k};
      }
      LeastStampIsLast(store, tick, slots, lruKey);
    }

    method Set(sql: string, batches: V, now: nat)
      requires Valid()
      modifies this
      ensures Valid()
      ensures Snapshot() == Lru.Set(Limits(), old(Snapshot()), Normalize(parse, sql), batches, now)
    {
      hide Represents, Find, Normalize, Distinct;
      var key := Normalize(parse, sql);
      StoreIsList(store, tick, slots, key);
      SameSize(store, tick, slots);
      ghost var kept := slots;
      if key !in store && |store| >= maxEntries {
        var lruKey := FindLru();
        LastRemoved(store, tick, slots);
        kept := slots[..|slots| - 1];
        store := store - {lruKey};
        evictionsLru := evictionsLru + 1;
      }
      StoreRepresents(store, tick, kept, Slot(key, batches, now));
      tick := tick + 1;
      store := store[key := Entry(batches, now, tick)];
      slots := [Slot(key, batches, now)] + if key in old(store) then RemoveAt(kept, Find(kept, key).value) else kept;
    }

    method Clear()
      requires Valid()
      modifies this
      ensures Valid()
      ensures Snapshot() == Lru.Clear(old(Snapshot()))
    {
      store := map[];
      slots := [];
    }

    method Len() returns (n: nat)
      requires Valid()
      ensures n == |slots|
    {
      SameSize(store, tick, slots);
      n := |store|;
    }

    method IsEmpty() returns (empty: bool)
      requires Valid()
      ensures empty <==> slots == []
    {
      var n := Len();
      empty := n == 0;
    }

    method Stats() returns (stats: CacheStats)
      requires Valid()
      ensures stats == CacheStats(hits, misses, evictionsLru, evictionsTtl, |slots|)
    {
      SameSize(store, tick, slots);
      stats := CacheStats(hits, misses, evictionsLru, evictionsTtl, |store|);
    }
  }

  lemma StampsMayLag<V>(store: map<string, Entry<V>>, tick: nat, slots: seq<Slot<V>>)
    requires Represents(store, tick, slots)
    ensures Represents(store, tick + 1, slots)
  {
  }

  lemma SameSize<V>(store: map<string, Entry<V>>, tick: nat, slots: seq<Slot<V>>)
    requires Represents(store, tick, slots)
    ensures |store| == |slots|
  {
    DistinctKeysCount(slots);
  }
}
