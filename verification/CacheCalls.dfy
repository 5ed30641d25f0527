/** A call of the interleaved cache run from its begin to its end with nothing in between: it is the one step of the
    serial cache. */
module CacheCalls {
  import opened Bytes
  import opened CacheLayer
  import opened CacheSteps
  import Runs = CacheRuns

  /** The state after `n` more steps of a call; `dropped` and `stored` say whether its delete and its set work. */
  function Finish<V>(u: Setup<V>, s: State<V>, id: nat, dropped: bool, stored: bool, n: nat): State<V>
    requires id in s.calls
    decreases n
  {
    if n == 0 then s
    else Finish(u, Advance(u, s, id, if s.calls[id].MustDelete? then dropped else stored), id, dropped, stored, n - 1)
  }

  /** It is a run in which only this call moves. */
  lemma {:induction false} FinishIsRun<V>(u: Setup<V>, s: State<V>, id: nat, dropped: bool, stored: bool, n: nat)
    returns (actions: seq<Action<V>>)
    requires id in s.calls
    ensures forall a | a in actions :: a.Continue? && a.id == id
    ensures Run(u, s, actions) == Finish(u, s, id, dropped, stored, n)
    decreases n
  {
    if n == 0 {
      actions := [];
    } else {
      var a := Continue(id, if s.calls[id].MustDelete? then dropped else stored);
      var rest := FinishIsRun(u, Step(u, s, a), id, dropped, stored, n - 1);
      RunFirst(u, s, a, rest);
      actions := [a] + rest;
    }
  }

  lemma {:induction false} RunFirst<V>(u: Setup<V>, s: State<V>, a: Action<V>, rest: seq<Action<V>>)
    ensures Run(u, s, [a] + rest) == Run(u, Step(u, s, a), rest)
    decreases |rest|
  {
    if |rest| == 0 {
      RunThen(u, s, [], a);
      assert [] + [a] == [a] + rest;
    } else {
      var n := |rest| - 1;
      assert [a] + rest == ([a] + rest[..n]) + [rest[n]];
      RunFirst(u, s, a, rest[..n]);
      RunThen(u, s, [a] + rest[..n], rest[n]);
    }
  }

  lemma Ended<V>(u: Setup<V>, s: State<V>, id: nat, dropped: bool, stored: bool, n: nat)
    requires id in s.calls && (s.calls[id].Answered? || s.calls[id].Finished?)
    ensures Finish(u, s, id, dropped, stored, n) == s
  {
    if n > 0 {
      assert Advance(u, s, id, stored) == s;
      Ended(u, s, id, dropped, stored, n - 1);
    }
  }

  /** From a miss on: the getter's answer is given, and stored if there is one. */
  lemma FromMissed<V>(u: Setup<V>, s: State<V>, id: nat, key: string, ttl: int, dropped: bool, stored: bool, n: nat)
    requires id in s.calls && s.calls[id] == Missed(key, ttl) && n >= 2
    ensures var value := u.getter(key);
      Finish(u, s, id, dropped, stored, n)
      == To(if value.Some? && stored then s.(items := s.items[key := NewItem(u.local, value.value, ttl, s.clock)])
            else s, id, Answered(key, value))
  {
    var t := Advance(u, s, id, stored);
    if t.calls[id].Answered? {
      Ended(u, t, id, dropped, stored, n - 1);
    } else {
      Ended(u, Advance(u, t, id, stored), id, dropped, stored, n - 2);
    }
  }

  lemma FromGot<V>(u: Setup<V>, s: State<V>, begun: State<V>, id: nat, key: string, ttl: int, dropped: bool,
                   stored: bool)
    requires key in s.items && begun == To(s, id, Got(key, Some(s.items[key]), Fetch(ttl)))
    ensures var item, value := s.items[key], u.getter(key);
      var kept := if dropped then s.items - {key} else s.items;
      Finish(u, begun, id, dropped, stored, 4)
      == if u.local && LocallyExpired(item, s.clock)
         then To(s.(items := if value.Some? && stored then kept[key := NewItem(u.local, value.value, ttl, s.clock)]
                             else kept), id, Answered(key, value))
         else To(s, id, Answered(key, Some(item.value)))
  {
    var next := Advance(u, begun, id, stored);
    if next.calls[id].Answered? {
      Ended(u, next, id, dropped, stored, 3);
    } else {
      var after := Advance(u, next, id, dropped);
      assert after == To(s.(items := if dropped then s.items - {key} else s.items), id, Missed(key, ttl));
      FromMissed(u, after, id, key, ttl, dropped, stored, 2);
    }
  }

  /** An uninterrupted GetOrSet that got a live value answers it and leaves the store alone; any other answers and
      stores what the getter gives, and an expired entry it got is deleted before that. */
  lemma FetchCall<V>(u: Setup<V>, s: State<V>, id: nat, key: string, ttl: int, got: bool, dropped: bool, stored: bool)
    requires id !in s.calls
    ensures var t := Finish(u, Step(u, s, Begin(id, key, Fetch(ttl), got)), id, dropped, stored, 4);
      var found, value := got && InStore(s.items, key, s.clock), u.getter(key);
      var kept := if found && dropped && u.local && LocallyExpired(s.items[key], s.clock) then s.items - {key}
                  else s.items;
      t == if found && !(u.local && LocallyExpired(s.items[key], s.clock))
           then To(s, id, Answered(key, Some(s.items[key].value)))
           else To(s.(items := if value.Some? && stored then kept[key := NewItem(u.local, value.value, ttl, s.clock)]
                               else kept), id, Answered(key, value))
  {
    var begun := Step(u, s, Begin(id, key, Fetch(ttl), got));
    if got && InStore(s.items, key, s.clock) {
      FromGot(u, s, begun, id, key, ttl, dropped, stored);
    } else {
      FromMissed(u, Advance(u, begun, id, stored), id, key, ttl, dropped, stored, 3);
    }
  }

  /** Its answer and its store are those of the one step of the serial cache. */
  lemma FetchIsSerial<V>(u: Setup<V>, s: State<V>, id: nat, key: string, ttl: int, got: bool, dropped: bool,
                         stored: bool, answers: seq<(string, Option<V>)>)
    requires id !in s.calls
    ensures var t := Finish(u, Step(u, s, Begin(id, key, Fetch(ttl), got)), id, dropped, stored, 4);
      && id in t.calls && t.calls[id].Answered?
      && Runs.State(t.items, t.clock, answers + [(key, t.calls[id].answer)])
         == Runs.Step(Runs.State(s.items, s.clock, answers), u.local, u.getter,
                      Runs.GetOrSet(key, ttl, got, dropped, stored))
  {
    FetchCall(u, s, id, key, ttl, got, dropped, stored);
  }

  /** One key of an uninterrupted cleanup pass: the entry goes if it is past its local expiry, and nothing else does. */
  lemma SweepCall<V>(u: Setup<V>, s: State<V>, id: nat, key: string, got: bool, dropped: bool)
    requires id !in s.calls
    ensures var t := Finish(u, Step(u, s, Begin(id, key, Sweep, got)), id, dropped, true, 4);
      && t == To(s.(items := t.items), id, Finished)
      && t.items == Runs.AfterGet(s.items, u.local, key, s.clock, got, dropped)
      && t.items == if got && dropped && u.local && InStore(s.items, key, s.clock)
                       && s.items[key].expiresAt > 0 && s.clock > s.items[key].expiresAt
                    then s.items - {key} else s.items
  {
    var begun := Step(u, s, Begin(id, key, Sweep, got));
    var next := Advance(u, begun, id, true);
    if next.calls[id].Finished? {
      Ended(u, next, id, dropped, true, 3);
    } else {
      Ended(u, Advance(u, next, id, dropped), id, dropped, true, 2);
    }
  }

  /** An uninterrupted Set stores the value with both expiries. */
  lemma SetCall<V>(u: Setup<V>, s: State<V>, id: nat, key: string, value: V, ttl: int)
    requires id !in s.calls
    ensures var t := Finish(u, Step(u, s, BeginSet(id, key, value, ttl)), id, true, true, 1);
      && t == To(s.(items := t.items), id, Finished)
      && t.items == s.items[key := Item(value, if u.local && ttl > 0 then s.clock + ttl else 0, ttl, s.clock)]
      && t.items == Runs.Step(Runs.State(s.items, s.clock, []), u.local, u.getter, Runs.Put(key, value, ttl)).items
  {
    var begun := Step(u, s, BeginSet(id, key, value, ttl));
    assert Finish(u, Advance(u, begun, id, true), id, true, true, 0) == Advance(u, begun, id, true);
  }

  /** A Delete takes its key out of both, and no other. */
  lemma DeleteStep<V>(u: Setup<V>, s: State<V>, key: string)
    ensures var items := Step(u, s, Delete(key)).items;
      && key !in items && (forall k | k != key :: k in items <==> k in s.items)
      && (forall k | k in items :: items[k] == s.items[k])
      && items == Runs.Step(Runs.State(s.items, s.clock, []), u.local, u.getter, Runs.Delete(key)).items
  {
  }

  predicate Moves<V>(future: seq<Action<V>>, id: nat) {
    exists i :: 0 <= i < |future| && future[i].Continue? && future[i].id == id
  }

  lemma MovesGrows<V>(future: seq<Action<V>>, n: nat, id: nat)
    requires |future| == n + 1
    ensures Moves(future, id) <==> Moves(future[..n], id) || (future[n].Continue? && future[n].id == id)
  {
    if i :| 0 <= i < |future| && future[i].Continue? && future[i].id == id {
      assert i < n ==> future[..n][i] == future[i];
    }
    if i :| 0 <= i < n && future[..n][i].Continue? && future[..n][i].id == id {
      assert future[i] == future[..n][i];
    }
  }

  lemma LiveItemStep<V>(u: Setup<V>, s: State<V>, a: Action<V>, id: nat, key: string, item: Item<V>, ttl: int)
    requires id in s.calls && !(u.local && LocallyExpired(item, s.clock))
    requires s.calls[id] == Answered(key, Some(item.value)) || s.calls[id] == Got(key, Some(item), Fetch(ttl))
    ensures var t := Step(u, s, a);
      id in t.calls && t.calls[id] == if a.Continue? && a.id == id then Answered(key, Some(item.value)) else s.calls[id]
  {
  }

  /** Whatever runs in between: a GetOrSet that got an item answers its value at its next step, never the getter's,
      unless local expiry has caught up with it by then. */
  lemma {:induction false} LiveItemIsAnswered<V>(u: Setup<V>, s: State<V>, future: seq<Action<V>>, id: nat, key: string,
                                                 item: Item<V>, ttl: int)
    requires id in s.calls && s.calls[id] == Got(key, Some(item), Fetch(ttl))
    requires !(u.local && LocallyExpired(item, Run(u, s, future).clock))
    ensures var t := Run(u, s, future);
      id in t.calls && t.calls[id] == if Moves(future, id) then Answered(key, Some(item.value)) else s.calls[id]
  {
    if |future| > 0 {
      var n := |future| - 1;
      RunClock(u, s, future, n);
      LiveItemIsAnswered(u, s, future[..n], id, key, item, ttl);
      LiveItemStep(u, Run(u, s, future[..n]), future[n], id, key, item, ttl);
      MovesGrows(future, n, id);
    }
  }
}
