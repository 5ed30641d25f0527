/** The same store with loads, stores and lazy deletes of concurrent calls interleaved one by one. */
module MemoryKVSteps {
  import opened Bytes
  import opened Envelope
  import opened TimedMap

  /** Where a call in flight stands: `bytes` is what it loaded, `at` when it decoded. */
  datatype Call =
    | Encoded(key: string, entry: Entry)
    | Loaded(key: string, bytes: Option<seq<Byte>>)
    | MustDelete(key: string, bytes: Option<seq<Byte>>, at: int)
    | Answered(key: string, bytes: Option<seq<Byte>>, answer: Lookup, at: int)

  datatype State = State(
    store: map<string, seq<Byte>>,
    log: Log,
    calls: map<nat, Call>,
    clock: int)

  datatype Action =
    | Tick(elapsed: nat)
    | Encode(id: nat, key: string, value: Slice, ttl: int)
    | Store(id: nat)
    | Load(id: nat, key: string)
    | Decode(id: nat)
    | LazyDelete(id: nat)
    | Delete(key: string)

  const Start := State(map[], map[], map[], 0)

  function At<V>(m: map<string, V>, key: string): Option<V> {
    if key in m then Some(m[key]) else None
  }

  /** One atomic step; an action that does not fit the state leaves it as it is. */
  function Step(s: State, a: Action): State {
    match a
    case Tick(elapsed) => s.(clock := s.clock + elapsed)
    case Encode(id, key, value, ttl) =>
      if id in s.calls then s
      else s.(calls := s.calls[id := Encoded(key, Entry(value, ttl, s.clock))])
    case Store(id) =>
      if id !in s.calls || !s.calls[id].Encoded? then s
      else
        var c := s.calls[id];
        s.(store := s.store[c.key := Stored(c.entry)], log := s.log[c.key := c.entry], calls := s.calls - {id})
    case Load(id, key) =>
      if id in s.calls then s
      else s.(calls := s.calls[id := Loaded(key, At(s.store, key))])
    case Decode(id) =>
      if id !in s.calls || !s.calls[id].Loaded? then s
      else
        var c := s.calls[id];
        var answer := if c.bytes.None? then Miss else Interpret(c.bytes.value, s.clock);
        s.(calls := s.calls[id := if c.bytes.Some? && answer.Miss? then MustDelete(c.key, c.bytes, s.clock)
                                  else Answered(c.key, c.bytes, answer, s.clock)])
    case LazyDelete(id) =>
      if id !in s.calls || !s.calls[id].MustDelete? then s
      else
        var c := s.calls[id];
        s.(store := s.store - {c.key}, calls := s.calls[id := Answered(c.key, c.bytes, Miss, c.at)])
    case Delete(key) => s.(store := s.store - {key}, log := s.log - {key})
  }

  function Run(s: State, actions: seq<Action>): State {
    if |actions| == 0 then s
    else Step(Run(s, actions[..|actions| - 1]), actions[|actions| - 1])
  }

  lemma RunThen(s: State, actions: seq<Action>, a: Action)
    ensures Run(s, actions + [a]) == Step(Run(s, actions), a)
  {
    assert (actions + [a])[..|actions|] == actions;
  }

  /** The store is the timed map with some entries lost. */
  ghost predicate Inv(s: State) {
    forall k | k in s.store :: k in s.log && s.store[k] == Stored(s.log[k])
  }

  lemma StepKeepsInv(s: State, a: Action)
    requires Inv(s)
    ensures Inv(Step(s, a)) && s.clock <= Step(s, a).clock
  {
  }

  lemma {:induction false} RunKeepsInv(s: State, actions: seq<Action>)
    requires Inv(s)
    ensures Inv(Run(s, actions)) && s.clock <= Run(s, actions).clock
  {
    if |actions| > 0 {
      RunKeepsInv(s, actions[..|actions| - 1]);
      StepKeepsInv(Run(s, actions[..|actions| - 1]), actions[|actions| - 1]);
    }
  }

  // ---- calls with nothing in between ----

  /** A Get run through answers what the store holds under its key and takes it out if it has run out; over a store
      that has lost nothing that is the timed map's answer. */
  lemma GetCall(s: State, id: nat, key: string)
    requires id !in s.calls
    ensures var t := Step(Step(Step(s, Load(id, key)), Decode(id)), LazyDelete(id));
      var answer := if key in s.store then Interpret(s.store[key], s.clock) else Miss;
      && t == s.(store := t.store, calls := s.calls[id := Answered(key, At(s.store, key), answer, s.clock)])
      && t.store == (if answer.Miss? then s.store - {key} else s.store)
      && (Inv(s) && s.log.Keys <= s.store.Keys ==> answer == LookupIn(s.log, key, s.clock))
  {
  }

  /** A Set run through stores its own bytes under its key and nothing else. */
  lemma SetCall(s: State, id: nat, key: string, value: Slice, ttl: int)
    requires id !in s.calls
    ensures var e := Entry(value, ttl, s.clock);
      Step(Step(s, Encode(id, key, value, ttl)), Store(id))
      == s.(store := s.store[key := EncodeWithTtl(value, ttl, s.clock).Content()], log := s.log[key := e])
  {
    assert s.calls[id := Encoded(key, Entry(value, ttl, s.clock))] - {id} == s.calls;
  }

  /** After a Delete the key is gone and every other one is as it was. */
  lemma DeleteCall(s: State, key: string)
    ensures var t := Step(s, Delete(key));
      && key !in t.store && LookupIn(t.log, key, t.clock) == Miss
      && t == s.(store := t.store, log := t.log)
      && forall k | k != key :: At(t.store, k) == At(s.store, k) && (k in t.log <==> k in s.log)
                             && (k in s.log ==> t.log[k] == s.log[k])
  {
  }

  // ---- which write an answer shows ----

  predicate LoadsAt(actions: seq<Action>, i: nat, id: nat, key: string) {
    i < |actions| && actions[i] == Load(id, key) && id !in Run(Start, actions[..i]).calls
  }

  /** What a call holds is what the store gave it at its load. */
  ghost predicate LoadedAt(actions: seq<Action>, i: nat, id: nat, c: Call) {
    !c.Encoded? && LoadsAt(actions, i, id, c.key) && c.bytes == At(Run(Start, actions[..i]).store, c.key)
  }

  ghost predicate Decoded(c: Call, clock: int) {
    match c
    case MustDelete(_, bytes, at) => bytes.Some? && Interpret(bytes.value, at) == Miss && at <= clock
    case Answered(_, bytes, answer, at) =>
      answer == (if bytes.None? then Miss else Interpret(bytes.value, at)) && at <= clock
    case _ => true
  }

  ghost predicate Traced(actions: seq<Action>, id: nat) {
    var s := Run(Start, actions);
    id in s.calls && !s.calls[id].Encoded? ==>
      Decoded(s.calls[id], s.clock) && exists i: nat :: LoadedAt(actions, i, id, s.calls[id])
  }

  lemma LoadedEarlier(actions: seq<Action>, n: nat, i: nat, id: nat, c: Call, c': Call)
    requires n <= |actions| && LoadedAt(actions[..n], i, id, c)
    requires !c'.Encoded? && c'.key == c.key && c'.bytes == c.bytes
    ensures LoadedAt(actions, i, id, c')
  {
    assert actions[..n][..i] == actions[..i];
  }

  lemma CallMoves(s: State, a: Action, id: nat)
    requires id in Step(s, a).calls && !Step(s, a).calls[id].Encoded?
    ensures var c := Step(s, a).calls[id];
      || (id !in s.calls && a == Load(id, c.key) && c == Loaded(c.key, At(s.store, c.key)))
      || (id in s.calls && !s.calls[id].Encoded? && c.key == s.calls[id].key && c.bytes == s.calls[id].bytes
          && (Decoded(s.calls[id], s.clock) ==> Decoded(c, Step(s, a).clock)))
  {
  }

  lemma {:induction false} RunIsTraced(actions: seq<Action>, id: nat)
    ensures Traced(actions, id)
  {
    if |actions| > 0 {
      var n := |actions| - 1;
      var s, a := Run(Start, actions[..n]), actions[n];
      RunIsTraced(actions[..n], id);
      var t := Step(s, a);
      if id in t.calls && !t.calls[id].Encoded? {
        CallMoves(s, a, id);
        if id !in s.calls {
          assert LoadedAt(actions, n, id, t.calls[id]);
        } else {
          var i: nat :| LoadedAt(actions[..n], i, id, s.calls[id]);
          LoadedEarlier(actions, n, i, id, s.calls[id], t.calls[id]);
        }
      }
    }
  }

  /** In every interleaving an answer is what the write that was current at the call's load shows at its decode, unless
      the store had lost that write by then: then, and then only, the answer is a miss all the same. So it is never
      bytes nobody wrote under that key nor a write past its own deadline, and a miss is spurious exactly when the
      entry was lost and its write still shows. */
  lemma AnswersAreWrites(actions: seq<Action>, id: nat) returns (i: nat)
    requires var s := Run(Start, actions); id in s.calls && s.calls[id].Answered?
    ensures var c := Run(Start, actions).calls[id];
            LoadsAt(actions, i, id, c.key) && Run(Start, actions[..i]).clock <= c.at
    ensures var c := Run(Start, actions).calls[id];
            var l := Run(Start, actions[..i]);
            c.answer == if c.key in l.log && c.key !in l.store then Miss else LookupIn(l.log, c.key, c.at)
    ensures var c := Run(Start, actions).calls[id];
            var l := Run(Start, actions[..i]);
            c.answer != LookupIn(l.log, c.key, c.at)
            <==> c.key in l.log && c.key !in l.store && Observe(l.log[c.key], c.at) != Miss
  {
    var c := Run(Start, actions).calls[id];
    RunIsTraced(actions, id);
    i :| LoadedAt(actions, i, id, c);
    RunKeepsInv(Start, actions[..i]);
    DecodedAfterLoad(actions, i, id);
  }

  // ---- the decode comes after the load ----

  ghost predicate NotBefore(s: State, id: nat, since: int) {
    id in s.calls && !s.calls[id].Encoded? && (s.calls[id].Loaded? || s.calls[id].at >= since) && since <= s.clock
  }

  lemma {:induction false} StaysNotBefore(s: State, actions: seq<Action>, id: nat, since: int)
    requires NotBefore(s, id, since)
    ensures NotBefore(Run(s, actions), id, since)
  {
    if |actions| > 0 {
      StaysNotBefore(s, actions[..|actions| - 1], id, since);
    }
  }

  lemma {:induction false} RunConcat(s: State, first: seq<Action>, second: seq<Action>)
    ensures Run(s, first + second) == Run(Run(s, first), second)
  {
    if |second| == 0 {
      assert first + second == first;
    } else {
      var front, a := second[..|second| - 1], second[|second| - 1];
      RunConcat(s, first, front);
      assert first + second == (first + front) + [a];
      RunThen(s, first + front, a);
    }
  }

  lemma DecodedAfterLoad(actions: seq<Action>, i: nat, id: nat)
    requires i < |actions| && actions[i].Load? && actions[i].id == id && id !in Run(Start, actions[..i]).calls
    ensures NotBefore(Run(Start, actions), id, Run(Start, actions[..i]).clock)
  {
    var l := Run(Start, actions[..i]);
    RunThen(Start, actions[..i], actions[i]);
    assert actions[..i] + [actions[i]] + actions[i + 1..] == actions;
    RunConcat(Start, actions[..i] + [actions[i]], actions[i + 1..]);
    StaysNotBefore(Step(l, actions[i]), actions[i + 1..], id, l.clock);
  }

  // ---- when a fresh write is lost ----

  /** A step that writes or deletes the key on a caller's behalf. */
  predicate Rewrites(s: State, a: Action, key: string) {
    a == Delete(key) || (a.Store? && a.id in s.calls && s.calls[a.id].Encoded? && s.calls[a.id].key == key)
  }

  ghost predicate Unwritten(s: State, future: seq<Action>, key: string) {
    forall i | 0 <= i < |future| :: !Rewrites(Run(s, future[..i]), future[i], key)
  }

  /** A call that was under way before the write and carries bytes of the key that are past their deadline. */
  predicate Outdated(c: Call, key: string, now: int) {
    match c
    case MustDelete(k, _, _) => k == key
    case Loaded(k, bytes) => k == key && bytes.Some? && Interpret(bytes.value, now) == Miss
    case _ => false
  }

  predicate Due(s: State, id: nat, key: string) {
    id in s.calls && s.calls[id].MustDelete? && s.calls[id].key == key
  }

  predicate DeletesAt(s: State, future: seq<Action>, i: nat, key: string) {
    i < |future| && future[i].LazyDelete? && Due(Run(s, future[..i]), future[i].id, key)
  }

  /** At step i a call that was outdated in the first state performs its lazy delete. */
  predicate ErasesAt(s: State, future: seq<Action>, i: nat, key: string) {
    DeletesAt(s, future, i, key)
    && future[i].id in s.calls && Outdated(s.calls[future[i].id], key, Run(s, future).clock)
  }

  ghost predicate Erased(s: State, future: seq<Action>, key: string) {
    exists i: nat :: DeletesAt(s, future, i, key)
  }

  // What is known of the calls while the write is in place.

  ghost predicate DueOutdated(s: State, t: State, key: string) {
    forall id | Due(t, id, key) :: id in s.calls && Outdated(s.calls[id], key, t.clock)
  }

  predicate LoadedOutdated(s: State, t: State, key: string, e: Entry, id: nat) {
    id in t.calls && t.calls[id].Loaded? && t.calls[id].key == key && t.calls[id].bytes.Some? ==>
      t.calls[id].bytes == Some(Stored(e)) || (id in s.calls && s.calls[id] == t.calls[id])
  }

  ghost predicate OnlyOutdated(s: State, t: State, key: string, e: Entry) {
    && DueOutdated(s, t, key)
    && (forall id :: LoadedOutdated(s, t, key, e, id))
    && (key in t.store ==> t.store[key] == Stored(e))
  }

  lemma OutdatedStays(c: Call, key: string, now: int, later: int)
    requires now <= later && Outdated(c, key, now)
    ensures Outdated(c, key, later)
  {
    if c.Loaded? {
      MissIsFinal(c.bytes.value, now, later);
    }
  }

  lemma BecomesDue(t: State, a: Action, id: nat, key: string)
    requires Due(Step(t, a), id, key) && !Due(t, id, key)
    ensures a == Decode(id) && id in t.calls && t.calls[id].Loaded? && t.calls[id].key == key
    ensures t.calls[id].bytes.Some? && Interpret(t.calls[id].bytes.value, t.clock) == Miss
    ensures Step(t, a).clock == t.clock
  {
  }

  lemma LoadedStays(s: State, t: State, a: Action, key: string, e: Entry, id: nat)
    requires LoadedOutdated(s, t, key, e, id) && (key in t.store ==> t.store[key] == Stored(e))
    ensures LoadedOutdated(s, Step(t, a), key, e, id)
  {
  }

  lemma StoreStays(t: State, a: Action, key: string)
    requires !Rewrites(t, a, key)
    ensures key in Step(t, a).store <==> key in t.store && !(a.LazyDelete? && Due(t, a.id, key))
    ensures key in Step(t, a).store ==> Step(t, a).store[key] == t.store[key]
  {
  }

  lemma StepKeepsOutdated(s: State, t: State, a: Action, key: string, e: Entry)
    requires OnlyOutdated(s, t, key, e) && !Rewrites(t, a, key)
    requires Observe(e, t.clock) != Miss && t.clock <= Step(t, a).clock
    ensures OnlyOutdated(s, Step(t, a), key, e)
  {
    var u := Step(t, a);
    StoreStays(t, a, key);
    forall id | Due(u, id, key)
      ensures id in s.calls && Outdated(s.calls[id], key, u.clock)
    {
      if Due(t, id, key) {
        OutdatedStays(s.calls[id], key, t.clock, u.clock);
      } else {
        BecomesDue(t, a, id, key);
        assert LoadedOutdated(s, t, key, e, id);
      }
    }
    forall id
      ensures LoadedOutdated(s, u, key, e, id)
    {
      LoadedStays(s, t, a, key, e, id);
    }
  }

  lemma ShowsEarlier(e: Entry, now: int, later: int)
    requires now <= later && Observe(e, later) != Miss
    ensures Observe(e, now) != Miss
  {
    if Observe(e, now) == Miss {
      MissIsFinal(Stored(e), now, later);
    }
  }

  lemma UnwrittenEarlier(s: State, future: seq<Action>, n: nat, key: string)
    requires n <= |future| && Unwritten(s, future, key)
    ensures Unwritten(s, future[..n], key)
  {
    forall i | 0 <= i < n
      ensures !Rewrites(Run(s, future[..n][..i]), future[..n][i], key)
    {
      assert future[..n][..i] == future[..i];
    }
  }

  lemma DeletesEarlier(s: State, future: seq<Action>, n: nat, i: nat, key: string)
    requires i < n <= |future|
    ensures DeletesAt(s, future[..n], i, key) <==> DeletesAt(s, future, i, key)
  {
    assert future[..n][..i] == future[..i];
  }

  lemma ErasedGrows(s: State, future: seq<Action>, n: nat, key: string)
    requires |future| == n + 1
    ensures Erased(s, future, key) <==> Erased(s, future[..n], key) || DeletesAt(s, future, n, key)
  {
    if i: nat :| DeletesAt(s, future, i, key) {
      if i < n {
        DeletesEarlier(s, future, n, i, key);
      }
    }
    if i: nat :| DeletesAt(s, future[..n], i, key) {
      DeletesEarlier(s, future, n, i, key);
    }
  }

  lemma {:induction false} RunKeepsOutdated(s: State, future: seq<Action>, key: string, e: Entry)
    requires Inv(s) && OnlyOutdated(s, s, key, e) && Unwritten(s, future, key)
    requires Observe(e, Run(s, future).clock) != Miss
    ensures OnlyOutdated(s, Run(s, future), key, e)
    ensures key in s.store ==> (key in Run(s, future).store <==> !Erased(s, future, key))
  {
    if |future| > 0 {
      var n := |future| - 1;
      var t := Run(s, future[..n]);
      RunKeepsInv(s, future[..n]);
      StepKeepsInv(t, future[n]);
      ShowsEarlier(e, t.clock, Step(t, future[n]).clock);
      UnwrittenEarlier(s, future, n, key);
      RunKeepsOutdated(s, future[..n], key, e);
      StepKeepsOutdated(s, t, future[n], key, e);
      StoreStays(t, future[n], key);
      ErasedGrows(s, future, n, key);
    }
  }

  lemma PrefixClock(s: State, future: seq<Action>, i: nat)
    requires Inv(s) && i <= |future|
    ensures Run(s, future[..i]).clock <= Run(s, future).clock
  {
    RunKeepsInv(s, future[..i]);
    RunKeepsInv(Run(s, future[..i]), future[i..]);
    RunConcat(s, future[..i], future[i..]);
    assert future[..i] + future[i..] == future;
  }

  lemma DueWasOutdated(s: State, t: State, id: nat, key: string, later: int)
    requires DueOutdated(s, t, key) && Due(t, id, key) && t.clock <= later
    ensures id in s.calls && Outdated(s.calls[id], key, later)
  {
    OutdatedStays(s.calls[id], key, t.clock, later);
  }

  lemma DeleterIsOutdated(s: State, future: seq<Action>, i: nat, key: string, e: Entry)
    requires Inv(s) && OnlyOutdated(s, s, key, e) && Unwritten(s, future, key)
    requires Observe(e, Run(s, future).clock) != Miss && DeletesAt(s, future, i, key)
    ensures ErasesAt(s, future, i, key)
  {
    var now := Run(s, future).clock;
    PrefixClock(s, future, i);
    ShowsEarlier(e, Run(s, future[..i]).clock, now);
    UnwrittenEarlier(s, future, i, key);
    RunKeepsOutdated(s, future[..i], key, e);
    DueWasOutdated(s, Run(s, future[..i]), future[i].id, key, now);
  }

  lemma OutdatedAtFirst(s: State, key: string)
    requires Inv(s) && key in s.store
    ensures OnlyOutdated(s, s, key, s.log[key])
  {
  }

  /** While a write still shows and its key is neither written nor deleted again, its entry is lost if and only if a
      call that was already under way when it was in place, with bytes past their deadline, performs its lazy delete. */
  lemma WriteIsLostIff(s: State, future: seq<Action>, key: string)
    requires Inv(s) && key in s.store && Unwritten(s, future, key)
    requires Observe(s.log[key], Run(s, future).clock) != Miss
    ensures key !in Run(s, future).store <==> exists i: nat :: ErasesAt(s, future, i, key)
  {
    var e := s.log[key];
    OutdatedAtFirst(s, key);
    RunKeepsOutdated(s, future, key, e);
    if Erased(s, future, key) {
      var i: nat :| DeletesAt(s, future, i, key);
      DeleterIsOutdated(s, future, i, key, e);
    }
  }

  /** A call that can still erase the entry: it has to delete, or holds bytes that will have run out. */
  ghost predicate CanErase(s: State, id: nat, key: string) {
    id in s.calls && exists t :: t >= s.clock && Outdated(s.calls[id], key, t)
  }

  ghost predicate Losable(s: State, key: string) {
    exists future :: Unwritten(s, future, key) && key !in Run(s, future).store
  }

  lemma LosableHasEraser(s: State, future: seq<Action>, key: string) returns (id: nat)
    requires Inv(s) && key in s.store && Clean(s.log[key]) && s.log[key].ttl <= 0
    requires Unwritten(s, future, key) && key !in Run(s, future).store
    ensures CanErase(s, id, key)
  {
    ObserveIsTimed(s.log[key], Run(s, future).clock);
    WriteIsLostIff(s, future, key);
    var i: nat :| ErasesAt(s, future, i, key);
    id := future[i].id;
    RunKeepsInv(s, future);
  }

  /** A clean write without expiry can be lost in some continuation without further writes if and only if some call
      under way holds older bytes that run out, or already has to delete; in particular never when no call has
      loaded the key. */
  lemma FreshWriteLosableIff(s: State, key: string)
    requires Inv(s) && key in s.store && Clean(s.log[key]) && s.log[key].ttl <= 0
    ensures Losable(s, key) <==> exists id: nat :: CanErase(s, id, key)
  {
    if Losable(s, key) {
      var future: seq<Action> :| Unwritten(s, future, key) && key !in Run(s, future).store;
      var id := LosableHasEraser(s, future, key);
    }
    if id: nat :| CanErase(s, id, key) {
      var future := Erase(s, id, key);
    }
  }

  lemma UnwrittenThen(s: State, front: seq<Action>, a: Action, key: string)
    requires Unwritten(s, front, key) && !Rewrites(Run(s, front), a, key)
    ensures Unwritten(s, front + [a], key)
  {
    var all := front + [a];
    forall i | 0 <= i < |all|
      ensures !Rewrites(Run(s, all[..i]), all[i], key)
    {
      assert all[..i] == front[..i];
      assert i == |front| ==> all[..i] == front;
    }
  }

  lemma EraseDue(s: State, front: seq<Action>, id: nat, key: string)
    requires Unwritten(s, front, key) && Due(Run(s, front), id, key)
    ensures Unwritten(s, front + [LazyDelete(id)], key) && key !in Run(s, front + [LazyDelete(id)]).store
  {
    UnwrittenThen(s, front, LazyDelete(id), key);
    RunThen(s, front, LazyDelete(id));
  }

  lemma Erase(s: State, id: nat, key: string) returns (future: seq<Action>)
    requires CanErase(s, id, key)
    ensures Unwritten(s, future, key) && key !in Run(s, future).store
  {
    if s.calls[id].MustDelete? {
      EraseDue(s, [], id, key);
      future := [] + [LazyDelete(id)];
    } else {
      var t :| t >= s.clock && Outdated(s.calls[id], key, t);
      var wait, decode := Tick(t - s.clock), Decode(id);
      UnwrittenThen(s, [], wait, key);
      RunThen(s, [], wait);
      UnwrittenThen(s, [] + [wait], decode, key);
      RunThen(s, [] + [wait], decode);
      WaitedDecode(s, id, key, t);
      EraseDue(s, [] + [wait] + [decode], id, key);
      future := [] + [wait] + [decode] + [LazyDelete(id)];
    }
  }

  lemma WaitedDecode(s: State, id: nat, key: string, t: int)
    requires id in s.calls && s.calls[id].Loaded? && t >= s.clock && Outdated(s.calls[id], key, t)
    ensures Due(Step(Step(s, Tick(t - s.clock)), Decode(id)), id, key)
  {
  }

  /** The loss does happen: after these steps a write without expiry can still be erased. */
  lemma FreshWriteCanBeLost() returns (actions: seq<Action>)
    ensures var s := Run(Start, actions);
      "k" in s.store && "k" in s.log && s.log["k"] == Entry(Bytes([1]), 0, 0) && Losable(s, "k")
  {
    var old_, new_ := Entry(Bytes([1]), SECOND, 0), Entry(Bytes([1]), 0, 0);
    var stale := Loaded("k", Some(Stored(old_)));
    actions := [Encode(0, "k", old_.value, SECOND), Store(0), Load(1, "k"), Encode(2, "k", new_.value, 0), Store(2)];
    FiveSteps(actions, old_, new_);
    var s := Run(Start, actions);
    RunKeepsInv(Start, actions);
    ObserveIsTimed(old_, SECOND);
    assert Outdated(stale, "k", SECOND);
    assert CanErase(s, 1, "k");
    var future := Erase(s, 1, "k");
  }

  lemma FiveSteps(actions: seq<Action>, old_: Entry, new_: Entry)
    requires old_.written == 0 && new_.written == 0
    requires actions == [Encode(0, "k", old_.value, old_.ttl), Store(0), Load(1, "k"),
                         Encode(2, "k", new_.value, new_.ttl), Store(2)]
    ensures Run(Start, actions)
         == State(map["k" := Stored(new_)], map["k" := new_], map[1 := Loaded("k", Some(Stored(old_)))], 0)
  {
    assert actions[..0] == [];
    RunThen(Start, actions[..0], actions[0]);
    assert actions[..0] + [actions[0]] == actions[..1];
    RunThen(Start, actions[..1], actions[1]);
    assert actions[..1] + [actions[1]] == actions[..2];
    RunThen(Start, actions[..2], actions[2]);
    assert actions[..2] + [actions[2]] == actions[..3];
    RunThen(Start, actions[..3], actions[3]);
    assert actions[..3] + [actions[3]] == actions[..4];
    RunThen(Start, actions[..4], actions[4]);
    assert actions[..4] + [actions[4]] == actions;
    WriteOnce(Start, 0, "k", old_);
    var loaded := Step(Run(Start, actions[..2]), Load(1, "k"));
    assert loaded.calls == map[1 := Loaded("k", Some(Stored(old_)))];
    WriteOnce(loaded, 2, "k", new_);
  }

  lemma WriteOnce(s: State, id: nat, key: string, e: Entry)
    requires id !in s.calls && e.written == s.clock
    ensures Step(Step(s, Encode(id, key, e.value, e.ttl)), Store(id))
         == s.(store := s.store[key := Stored(e)], log := s.log[key := e])
  {
    assert Step(s, Encode(id, key, e.value, e.ttl)) == s.(calls := s.calls[id := Encoded(key, e)]);
  }
}
