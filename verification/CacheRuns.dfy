/** Whole runs of the cache layer, one call at a time. */
module CacheRuns {
  import opened Bytes
  import opened CacheLayer

  datatype Action<V> =
    | Tick(elapsed: nat)
    | GetOrSet(key: string, ttl: int, got: bool, dropped: bool, set_: bool)
    | Put(key: string, value: V, ttl: int)
    | Delete(key: string)
    | Cleanup(key: string)

  datatype State<V> = State(items: Items<V>, clock: int, answers: seq<(string, Option<V>)>)

  /** A Get that finds an expired entry; `got` and `dropped` say whether the store's get and delete work. */
  function AfterGet<V>(items: Items<V>, local: bool, key: string, now: int, got: bool, dropped: bool): Items<V> {
    if got && dropped && local && InStore(items, key, now) && LocallyExpired(items[key], now) then items - {key}
    else items
  }

  function Step<V>(s: State<V>, local: bool, getter: string -> Option<V>, a: Action<V>): State<V> {
    match a
    case Tick(elapsed) => s.(clock := s.clock + elapsed)
    case GetOrSet(key, ttl, got, dropped, set_) =>
      var cached := if got then Read(s.items, local, key, s.clock) else None;
      var items := AfterGet(s.items, local, key, s.clock, got, dropped);
      if cached.Some? then s.(items := items, answers := s.answers + [(key, cached)])
      else
        var value := getter(key);
        s.(items := if value.Some? && set_ then items[key := NewItem(local, value.value, ttl, s.clock)] else items,
           answers := s.answers + [(key, value)])
    case Put(key, value, ttl) => s.(items := s.items[key := NewItem(local, value, ttl, s.clock)])
    case Delete(key) => s.(items := s.items - {key})
    case Cleanup(key) => s.(items := AfterGet(s.items, local, key, s.clock, true, true))
  }

  function Run<V>(local: bool, getter: string -> Option<V>, actions: seq<Action<V>>): State<V> {
    if |actions| == 0 then State(map[], 0, [])
    else Step(Run(local, getter, actions[..|actions| - 1]), local, getter, actions[|actions| - 1])
  }

  function WithoutCleanup<V>(actions: seq<Action<V>>): seq<Action<V>> {
    if |actions| == 0 then []
    else WithoutCleanup(actions[..|actions| - 1])
         + if actions[|actions| - 1].Cleanup? then [] else [actions[|actions| - 1]]
  }

  lemma AfterGetUnseen<V>(items: Items<V>, local: bool, key: string, now: int, got: bool, dropped: bool)
    ensures SameReads(local, items, AfterGet(items, local, key, now, got, dropped), now)
  {
    if AfterGet(items, local, key, now, got, dropped) != items {
      DropUnseenIff(local, items, key, now);
    }
  }

  lemma SameReadsSet<V>(local: bool, a: Items<V>, b: Items<V>, now: int, key: string, item: Item<V>)
    requires SameReads(local, a, b, now)
    ensures SameReads(local, a[key := item], b[key := item], now)
  {
    var a', b' := a[key := item], b[key := item];
    forall other, t | now <= t
      ensures Read(a', local, other, t) == Read(b', local, other, t)
    {
      assert Read(a, local, other, t) == Read(b, local, other, t);
    }
  }

  lemma SameReadsDelete<V>(local: bool, a: Items<V>, b: Items<V>, now: int, key: string)
    requires SameReads(local, a, b, now)
    ensures SameReads(local, a - {key}, b - {key}, now)
  {
    var a', b' := a - {key}, b - {key};
    forall other, t | now <= t
      ensures Read(a', local, other, t) == Read(b', local, other, t)
    {
      assert Read(a, local, other, t) == Read(b, local, other, t);
    }
  }

  lemma SameReadsChain<V>(local: bool, a: Items<V>, b: Items<V>, c: Items<V>, now: int)
    requires SameReads(local, a, b, now) && SameReads(local, b, c, now)
    ensures SameReads(local, a, c, now) && SameReads(local, b, a, now)
  {
    forall key, t | now <= t
      ensures Read(a, local, key, t) == Read(c, local, key, t)
    {
      assert Read(a, local, key, t) == Read(b, local, key, t) == Read(c, local, key, t);
    }
  }

  /** Cleanup passes anywhere in a run change no answer: the run without them gives the same. */
  lemma {:induction false} CleanupIsInvisible<V>(local: bool, getter: string -> Option<V>, actions: seq<Action<V>>)
    ensures var s, t := Run(local, getter, actions), Run(local, getter, WithoutCleanup(actions));
      s.clock == t.clock && s.answers == t.answers && SameReads(local, s.items, t.items, s.clock)
  {
    if |actions| > 0 {
      var front, a := actions[..|actions| - 1], actions[|actions| - 1];
      CleanupIsInvisible(local, getter, front);
      var s, t := Run(local, getter, front), Run(local, getter, WithoutCleanup(front));
      if a.Cleanup? {
        assert WithoutCleanup(actions) == WithoutCleanup(front);
        AfterGetUnseen(s.items, local, a.key, s.clock, true, true);
        SameReadsBoth(local, s.items, t.items, Step(s, local, getter, a).items, t.items, s.clock);
      } else {
        assert (WithoutCleanup(front) + [a])[..|WithoutCleanup(front)|] == WithoutCleanup(front);
        SameStep(s, t, local, getter, a);
      }
    }
  }

  lemma SameReadsBoth<V>(local: bool, a: Items<V>, b: Items<V>, a': Items<V>, b': Items<V>, now: int)
    requires SameReads(local, a, b, now) && SameReads(local, a, a', now) && SameReads(local, b, b', now)
    ensures SameReads(local, a', b', now)
  {
    SameReadsChain(local, a', a, a, now) by {
      assert SameReads(local, a', a, now) by {
        forall key, t | now <= t
          ensures Read(a', local, key, t) == Read(a, local, key, t)
        {
          assert Read(a, local, key, t) == Read(a', local, key, t);
        }
      }
      assert SameReads(local, a, a, now);
    }
    SameReadsChain(local, a', a, b, now);
    SameReadsChain(local, a', b, b', now);
  }

  lemma SameStep<V>(s: State<V>, t: State<V>, local: bool, getter: string -> Option<V>, a: Action<V>)
    requires s.clock == t.clock && s.answers == t.answers && SameReads(local, s.items, t.items, s.clock) && !a.Cleanup?
    ensures var s', t' := Step(s, local, getter, a), Step(t, local, getter, a);
      s'.clock == t'.clock && s'.answers == t'.answers && SameReads(local, s'.items, t'.items, s'.clock)
  {
    match a {
      case Tick(_) =>
      case GetOrSet(key, ttl, got, dropped, set_) =>
        assert Read(s.items, local, key, s.clock) == Read(t.items, local, key, s.clock);
        var si := AfterGet(s.items, local, key, s.clock, got, dropped);
        var ti := AfterGet(t.items, local, key, s.clock, got, dropped);
        AfterGetUnseen(s.items, local, key, s.clock, got, dropped);
        AfterGetUnseen(t.items, local, key, s.clock, got, dropped);
        SameReadsBoth(local, s.items, t.items, si, ti, s.clock);
        if getter(key).Some? {
          SameReadsSet(local, si, ti, s.clock, key, NewItem(local, getter(key).value, ttl, s.clock));
        }
      case Put(key, value, ttl) =>
        SameReadsSet(local, s.items, t.items, s.clock, key, NewItem(local, value, ttl, s.clock));
      case Delete(key) =>
        SameReadsDelete(local, s.items, t.items, s.clock, key);
    }
  }
}
