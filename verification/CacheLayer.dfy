/** The generic cache over a key-value store: a nanosecond expiry of its own on top of the store's whole seconds. */
module CacheLayer {
  import opened Bytes
  import opened Envelope
  import MemoryKV
  import TimedMap

  /** A stored value: its local expiry in nanoseconds (0 for none), and the store's lifetime and write time. */
  datatype Item<V> = Item(value: V, expiresAt: int, ttl: int, written: int)

  type Items<V> = map<string, Item<V>>

  predicate InStore<V>(items: Items<V>, key: string, now: int) {
    key in items && Alive(items[key].ttl, items[key].written, now)
  }

  predicate LocallyExpired<V>(item: Item<V>, now: int) {
    item.expiresAt > 0 && now > item.expiresAt
  }

  /** What a Get answers when the store works. */
  function Read<V>(items: Items<V>, local: bool, key: string, now: int): Option<V> {
    if !InStore(items, key, now) || (local && LocallyExpired(items[key], now)) then None else Some(items[key].value)
  }

  function NewItem<V>(local: bool, value: V, ttl: int, now: int): Item<V> {
    Item(value, if local && ttl > 0 then now + ttl else 0, ttl, now)
  }

  /** No Get at `now` or later can tell the two apart. */
  ghost predicate SameReads<V>(local: bool, a: Items<V>, b: Items<V>, now: int) {
    forall key, t | now <= t :: Read(a, local, key, t) == Read(b, local, key, t)
  }

  /** Both expiries are for good, so dropping an entry is noticed if and only if it still answers. */
  lemma DropUnseenIff<V>(local: bool, items: Items<V>, key: string, now: int)
    ensures SameReads(local, items, items - {key}, now) <==> Read(items, local, key, now) == None
  {
    if Read(items, local, key, now) == None {
      forall other, t | now <= t
        ensures Read(items, local, other, t) == Read(items - {key}, local, other, t)
      {
        if other == key && key in items && items[key].ttl > 0 && Dead(items[key].ttl, items[key].written, now) {
          assert Dead(items[key].ttl, items[key].written, t);
        }
      }
    } else {
      assert Read(items - {key}, local, key, now) != Read(items, local, key, now);
    }
  }

  /** What is stored without a positive lifetime is served for ever; with one, it is served to within a second of it and
      no longer, by the store's own expiry, or the cache's to the nanosecond where local expiry is on. */
  lemma LayersAgree<V>(local: bool, value: V, ttl: int, written: int, now: int)
    requires written >= 0
    ensures var items := map["k" := NewItem(local, value, ttl, written)]; var r := Read(items, local, "k", now);
      && (ttl <= 0 || now <= written + ttl - SECOND ==> r == Some(value))
      && (ttl > 0 && local && now > written + ttl ==> r == None)
      && (ttl > 0 && written + ttl >= SECOND && now >= written + ttl ==> r == None)
  {
    ExpiryWindow(ttl, written, now);
  }

  /** Every call to the store may fail without effect; `failures` counts those that did. */
  class Cache<V(==)> {
    var items: Items<V>
    ghost var failures: nat
    const useLocalTTL: bool

    constructor (local: bool)
      ensures items == map[] && useLocalTTL == local && failures == 0
    {
      items, useLocalTTL, failures := map[], local, 0;
    }

    method StoreDelete(key: string) returns (ok: bool)
      modifies this
      ensures failures == old(failures) + if ok then 0 else 1
      ensures items == if ok then old(items) - {key} else old(items)
    {
      ok := *;
      failures := failures + if ok then 0 else 1;
      if ok {
        items := items - {key};
      }
    }

    method StoreGet(key: string, now: int) returns (item: Option<Item<V>>, ok: bool)
      modifies this`failures
      ensures failures == old(failures) + if ok then 0 else 1
      ensures item == if ok && InStore(items, key, now) then Some(items[key]) else None
    {
      ok := *;
      failures := failures + if ok then 0 else 1;
      item := if ok && InStore(items, key, now) then Some(items[key]) else None;
    }

    /** An entry past its local expiry is deleted on the way; nobody can tell. */
    method Get(key: string, now: int) returns (r: Option<V>)
      modifies this
      ensures failures >= old(failures)
      ensures failures == old(failures) ==> r == Read(old(items), useLocalTTL, key, now)
      ensures items == old(items) || (items == old(items) - {key} && r.None? && failures == old(failures))
      ensures failures == old(failures) && useLocalTTL && InStore(items, key, now) ==> !LocallyExpired(items[key], now)
      ensures r.Some? ==> key in old(items) && r.value == old(items)[key].value
      ensures SameReads(useLocalTTL, old(items), items, now)
    {
      var item, _ := StoreGet(key, now);
      if item.None? {
        return None;
      }
      if useLocalTTL && item.value.expiresAt > 0 && now > item.value.expiresAt {
        DropUnseenIff(useLocalTTL, items, key, now);
        var _ := StoreDelete(key);
        return None;
      }
      return Some(item.value.value);
    }

    method Set(key: string, value: V, ttl: int, now: int) returns (ok: bool)
      modifies this
      ensures failures == old(failures) + if ok then 0 else 1
      ensures items == if ok then old(items)[key := NewItem(useLocalTTL, value, ttl, now)] else old(items)
    {
      ok := *;
      failures := failures + if ok then 0 else 1;
      if ok {
        items := items[key := NewItem(useLocalTTL, value, ttl, now)];
      }
    }

    /** A live value is answered without asking the getter; after a miss the getter's answer is stored and given. With
        one getter per key, whatever the store does, every answer is the getter's. */
    method GetOrSet(key: string, getter: string -> Option<V>, ttl: int, now: int) returns (r: Option<V>)
      modifies this
      ensures Faithful(old(items), getter) ==> Faithful(items, getter) && (r.Some? ==> r == getter(key))
      ensures r.None? ==> getter(key).None?
      ensures failures >= old(failures) && items - {key} == old(items) - {key}
      ensures var cached := Read(old(items), useLocalTTL, key, now); failures == old(failures) ==>
        if cached.Some? then r == cached && items == old(items)
        else r == getter(key) && (r.Some? ==> key in items && items[key] == NewItem(useLocalTTL, r.value, ttl, now))
    {
      var cached := Get(key, now);
      if cached.Some? {
        return cached;
      }
      var value := getter(key);
      if value.None? {
        return None;
      }
      var _ := Set(key, value.value, ttl, now);
      return value;
    }

    /** Deletes exactly what is listed, so empties the store if and only if the listing holds every key; stops at the
        first delete that fails. */
    method Clear(keys: seq<string>) returns (ok: bool)
      modifies this
      ensures failures == old(failures) + if ok then 0 else 1
      ensures exists n | 0 <= n <= |keys| :: items == old(items) - Range(keys[..n])
      ensures ok ==> items == old(items) - Range(keys)
      ensures ok ==> (items == map[] <==> forall k | k in old(items) :: k in keys)
    {
      for i := 0 to |keys|
        invariant failures == old(failures)
        invariant items == old(items) - Range(keys[..i])
      {
        assert keys[..i + 1] == keys[..i] + [keys[i]];
        var deleted := StoreDelete(keys[i]);
        if !deleted {
          return false;
        }
      }
      assert keys[..|keys|] == keys;
      AllListed(old(items), keys);
      ok := true;
    }

    /** One pass over a listing, reading the clock anew for each key between `now` and `end`: no later Get changes, and
        a listed entry past its local expiry is left in the store only where a call for it failed. */
    method RunCleanupOnce(keys: seq<string>, now: int, end: int)
      requires now <= end
      modifies this
      ensures SameReads(useLocalTTL, old(items), items, end)
      ensures forall k | k in items :: k in old(items) && items[k] == old(items)[k]
      ensures !useLocalTTL ==> items == old(items)
      ensures failures >= old(failures)
      ensures useLocalTTL && failures == old(failures) ==>
        forall i | 0 <= i < |keys| :: Cleaned(items, keys[i], now, end)
      ensures useLocalTTL ==> Uncleaned(items, keys, now, end) <= failures - old(failures)
    {
      if !useLocalTTL {
        return;
      }
      var t := now;
      for i := 0 to |keys|
        invariant now <= t <= end && SameReads(useLocalTTL, old(items), items, end)
        invariant failures >= old(failures)
        invariant failures == old(failures) ==> forall j | 0 <= j < i :: Cleaned(items, keys[j], now, end)
        invariant forall k | k in items :: k in old(items) && items[k] == old(items)[k]
        invariant Uncleaned(items, keys[..i], now, end) <= failures - old(failures)
      {
        assert keys[..i + 1][..i] == keys[..i];
        ghost var before := items;
        var reading: int :| t <= reading <= end;
        t := reading;
        var key := keys[i];
        var item, _ := StoreGet(key, t);
        if item.None? {
          continue;
        }
        if item.value.expiresAt > 0 && t > item.value.expiresAt {
          DropUnseenIff(useLocalTTL, items, key, end);
          var _ := StoreDelete(key);
          UncleanedShrinks(before, items, keys[..i], now, end);
        }
      }
      assert keys[..|keys|] == keys;
    }
  }

  lemma AllListed<V>(items: Items<V>, keys: seq<string>)
    ensures items - Range(keys) == map[] <==> forall k | k in items :: k in keys
  {
    if k :| k in items && k !in keys {
      assert k in items - Range(keys);
    }
  }

  /** An entry locally expired before a pass is out of the store after it. */
  predicate Cleaned<V>(items: Items<V>, key: string, now: int, end: int) {
    InStore(items, key, end) ==> !LocallyExpired(items[key], now)
  }

  /** How many listed entries are left although they were locally expired before a pass. */
  function Uncleaned<V>(items: Items<V>, keys: seq<string>, now: int, end: int): nat {
    if |keys| == 0 then 0
    else Uncleaned(items, keys[..|keys| - 1], now, end) + if Cleaned(items, keys[|keys| - 1], now, end) then 0 else 1
  }

  lemma {:induction false} UncleanedShrinks<V>(before: Items<V>, after: Items<V>, keys: seq<string>, now: int, end: int)
    requires forall k | k in after :: k in before && after[k] == before[k]
    ensures Uncleaned(after, keys, now, end) <= Uncleaned(before, keys, now, end)
  {
    if |keys| > 0 {
      UncleanedShrinks(before, after, keys[..|keys| - 1], now, end);
    }
  }

  /** Every stored value is what the getter gives for its key. */
  ghost predicate Faithful<V>(items: Items<V>, getter: string -> Option<V>) {
    forall k | k in items :: getter(k) == Some(items[k].value)
  }

  /** Clearing over the in-memory store, whose pattern is matched literally, takes away the key "*" and nothing else:
      no key answers afterwards if and only if no other key answered before. */
  method ClearOverMemory(kv: MemoryKV.MemoryKV, now: int)
    requires kv.Valid() && kv.clock <= now
    modifies kv
    ensures kv.Valid()
    ensures kv.log == if TimedMap.LookupIn(old(kv.log), "*", now) != TimedMap.Miss then old(kv.log) - {"*"}
                      else old(kv.log)
    ensures (forall k :: TimedMap.LookupIn(kv.log, k, now) == TimedMap.Miss)
            <==> forall k | k != "*" :: TimedMap.LookupIn(old(kv.log), k, now) == TimedMap.Miss
  {
    var keys := kv.Keys("*", now, now);
    for i := 0 to |keys|
      invariant kv.Valid() && kv.log == if i == 0 then old(kv.log) else old(kv.log) - {"*"}
    {
      assert keys[i] in keys && TimedMap.Matches("*", keys[i]);
      kv.Delete(keys[i]);
    }
    assert TimedMap.LookupIn(old(kv.log), "*", now) != TimedMap.Miss <==> |keys| > 0 by {
      assert |keys| > 0 ==> keys[0] in keys;
    }
    StarGone(old(kv.log), kv.log, now);
  }

  lemma StarGone(before: TimedMap.Log, after: TimedMap.Log, now: int)
    requires after == if TimedMap.LookupIn(before, "*", now) != TimedMap.Miss then before - {"*"} else before
    ensures (forall k :: TimedMap.LookupIn(after, k, now) == TimedMap.Miss)
            <==> forall k | k != "*" :: TimedMap.LookupIn(before, k, now) == TimedMap.Miss
  {
    forall k | k != "*"
      ensures TimedMap.LookupIn(after, k, now) == TimedMap.LookupIn(before, k, now)
    {
    }
  }
}
