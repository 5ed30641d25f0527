/** The cache layer with every store call of concurrent callers and of the cleanup goroutine a separate step. */
module CacheSteps {
  import opened Bytes
  import opened Envelope
  import opened CacheLayer

  /** What a call is for: a GetOrSet with a lifetime for what it stores, one key of a cleanup pass, or a Set. */
  datatype Task = Fetch(ttl: int) | Sweep | Write

  /** Where a call in flight stands. */
  datatype Call<V> =
    | Got(key: string, item: Option<Item<V>>, task: Task)
    | MustDelete(key: string, task: Task)
    | Missed(key: string, ttl: int)
    | Storing(key: string, value: V, ttl: int, expiresAt: int, task: Task)
    | Answered(key: string, answer: Option<V>)
    | Finished

  datatype State<V> = State(items: Items<V>, calls: map<nat, Call<V>>, clock: int)

  /** `ok` says whether the store call of the step works. */
  datatype Action<V> =
    | Tick(elapsed: nat)
    | Begin(id: nat, key: string, task: Task, ok: bool)
    | BeginSet(id: nat, key: string, value: V, ttl: int)
    | Continue(id: nat, ok: bool)
    | Delete(key: string)

  datatype Setup<!V> = Setup(local: bool, getter: string -> Option<V>)

  function Expiry(local: bool, ttl: int, now: int): int {
    if local && ttl > 0 then now + ttl else 0
  }

  /** Where a call goes on after a miss: to its getter, or nowhere. */
  function AfterMiss<V>(key: string, task: Task): Call<V> {
    if task.Fetch? then Missed(key, task.ttl) else Finished
  }

  /** The next step of a call in flight. */
  function Advance<V>(u: Setup<V>, s: State<V>, id: nat, ok: bool): State<V>
    requires id in s.calls
  {
    match s.calls[id]
    case Got(key, None, task) => To(s, id, AfterMiss(key, task))
    case Got(key, Some(item), task) =>
      if u.local && LocallyExpired(item, s.clock) then To(s, id, MustDelete(key, task))
      else To(s, id, if task.Fetch? then Answered(key, Some(item.value)) else Finished)
    case MustDelete(key, task) =>
      To(if ok then s.(items := s.items - {key}) else s, id, AfterMiss(key, task))
    case Missed(key, ttl) =>
      (match u.getter(key)
       case None => To(s, id, Answered(key, None))
       case Some(v) => To(s, id, Storing(key, v, ttl, Expiry(u.local, ttl, s.clock), Fetch(ttl))))
    case Storing(key, value, ttl, expiresAt, task) =>
      To(if ok then s.(items := s.items[key := Item(value, expiresAt, ttl, s.clock)]) else s, id,
         if task.Fetch? then Answered(key, Some(value)) else Finished)
    case Answered(_, _) => s
    case Finished => s
  }

  function To<V>(s: State<V>, id: nat, c: Call<V>): State<V> {
    s.(calls := s.calls[id := c])
  }

  function Step<V>(u: Setup<V>, s: State<V>, a: Action<V>): State<V> {
    match a
    case Tick(elapsed) => s.(clock := s.clock + elapsed)
    case Begin(id, key, task, ok) =>
      if id in s.calls then s
      else To(s, id, Got(key, if ok && InStore(s.items, key, s.clock) then Some(s.items[key]) else None, task))
    case BeginSet(id, key, value, ttl) =>
      if id in s.calls then s else To(s, id, Storing(key, value, ttl, Expiry(u.local, ttl, s.clock), Write))
    case Continue(id, ok) => if id in s.calls then Advance(u, s, id, ok) else s
    case Delete(key) => s.(items := s.items - {key})
  }

  function Run<V>(u: Setup<V>, s: State<V>, actions: seq<Action<V>>): State<V> {
    if |actions| == 0 then s
    else Step(u, Run(u, s, actions[..|actions| - 1]), actions[|actions| - 1])
  }

  function Start<V>(): State<V> {
    State(map[], map[], 0)
  }

  lemma RunThen<V>(u: Setup<V>, s: State<V>, actions: seq<Action<V>>, a: Action<V>)
    ensures Run(u, s, actions + [a]) == Step(u, Run(u, s, actions), a)
  {
    assert (actions + [a])[..|actions|] == actions;
  }

  // ---- every answer is the getter's ----

  ghost predicate CallFaithful<V>(u: Setup<V>, c: Call<V>) {
    match c
    case Got(key, Some(item), _) => u.getter(key) == Some(item.value)
    case Storing(key, value, _, _, _) => u.getter(key) == Some(value)
    case Answered(key, answer) => u.getter(key) == answer
    case _ => true
  }

  ghost predicate AllFaithful<V>(u: Setup<V>, s: State<V>) {
    Faithful(s.items, u.getter) && forall id | id in s.calls :: CallFaithful(u, s.calls[id])
  }

  lemma StepKeepsFaithful<V>(u: Setup<V>, s: State<V>, a: Action<V>)
    requires AllFaithful(u, s) && !a.BeginSet?
    ensures AllFaithful(u, Step(u, s, a))
  {
    var t := Step(u, s, a);
    if a.Continue? && a.id in s.calls {
      assert CallFaithful(u, s.calls[a.id]);
    }
    forall id | id in t.calls
      ensures CallFaithful(u, t.calls[id])
    {
      assert id in s.calls ==> CallFaithful(u, s.calls[id]);
    }
  }

  /** With one getter per key and nobody else writing, every answer in every interleaving is the getter's, whichever
      store calls fail and whatever expires, is deleted or is cleaned up in between. */
  lemma {:induction false} AnswersAreTheGetters<V>(u: Setup<V>, actions: seq<Action<V>>)
    requires forall i | 0 <= i < |actions| :: !actions[i].BeginSet?
    ensures AllFaithful(u, Run(u, Start(), actions))
    ensures var s := Run(u, Start(), actions);
      forall id | id in s.calls && s.calls[id].Answered? :: s.calls[id].answer == u.getter(s.calls[id].key)
  {
    if |actions| > 0 {
      AnswersAreTheGetters(u, actions[..|actions| - 1]);
      StepKeepsFaithful(u, Run(u, Start(), actions[..|actions| - 1]), actions[|actions| - 1]);
    }
    var s := Run(u, Start(), actions);
    forall id | id in s.calls && s.calls[id].Answered?
      ensures s.calls[id].answer == u.getter(s.calls[id].key)
    {
      assert CallFaithful(u, s.calls[id]);
    }
  }

  // ---- when a fresh write is lost ----

  /** A step that sets or deletes the key on a caller's behalf. */
  predicate Rewrites<V>(s: State<V>, a: Action<V>, key: string) {
    match a
    case Delete(k) => k == key
    case Continue(id, ok) => ok && id in s.calls && s.calls[id].Storing? && s.calls[id].key == key
    case _ => false
  }

  ghost predicate Unwritten<V>(u: Setup<V>, s: State<V>, future: seq<Action<V>>, key: string) {
    forall i | 0 <= i < |future| :: !Rewrites(Run(u, s, future[..i]), future[i], key)
  }

  /** A call that has to delete the key, or read an item of it that is past its local expiry. */
  predicate Outdated<V>(c: Call<V>, key: string, now: int) {
    match c
    case MustDelete(k, _) => k == key
    case Got(k, Some(item), _) => k == key && LocallyExpired(item, now)
    case _ => false
  }

  predicate Due<V>(s: State<V>, id: nat, key: string) {
    id in s.calls && s.calls[id].MustDelete? && s.calls[id].key == key
  }

  predicate DeletesAt<V>(u: Setup<V>, s: State<V>, future: seq<Action<V>>, i: nat, key: string) {
    i < |future| && future[i].Continue? && future[i].ok && Due(Run(u, s, future[..i]), future[i].id, key)
  }

  /** At step i a call that was outdated in the first state performs its delete. */
  predicate ErasesAt<V>(u: Setup<V>, s: State<V>, future: seq<Action<V>>, i: nat, key: string) {
    DeletesAt(u, s, future, i, key)
    && future[i].id in s.calls && Outdated(s.calls[future[i].id], key, Run(u, s, future).clock)
  }

  ghost predicate Erased<V>(u: Setup<V>, s: State<V>, future: seq<Action<V>>, key: string) {
    exists i: nat :: DeletesAt(u, s, future, i, key)
  }

  // What is known of the calls while the write is in place.

  ghost predicate DueOutdated<V>(s: State<V>, t: State<V>, key: string) {
    forall id | Due(t, id, key) :: id in s.calls && Outdated(s.calls[id], key, t.clock)
  }

  ghost predicate GotOutdated<V>(s: State<V>, t: State<V>, key: string, e: Item<V>, id: nat) {
    id in t.calls && t.calls[id].Got? && t.calls[id].key == key && t.calls[id].item.Some? ==>
      t.calls[id].item == Some(e) || (id in s.calls && s.calls[id] == t.calls[id])
  }

  ghost predicate OnlyOutdated<V>(s: State<V>, t: State<V>, key: string, e: Item<V>) {
    && DueOutdated(s, t, key)
    && (forall id :: GotOutdated(s, t, key, e, id))
    && (key in t.items ==> t.items[key] == e)
  }

  lemma OutdatedStays<V>(c: Call<V>, key: string, now: int, later: int)
    requires now <= later && Outdated(c, key, now)
    ensures Outdated(c, key, later)
  {
  }

  lemma BecomesDue<V>(u: Setup<V>, t: State<V>, a: Action<V>, id: nat, key: string)
    requires Due(Step(u, t, a), id, key) && !Due(t, id, key)
    ensures a.Continue? && a.id == id && Step(u, t, a).clock == t.clock
    ensures id in t.calls && t.calls[id].Got? && t.calls[id].item.Some? && Outdated(t.calls[id], key, t.clock)
  {
  }

  lemma GotStays<V>(u: Setup<V>, s: State<V>, t: State<V>, a: Action<V>, key: string, e: Item<V>, id: nat)
    requires GotOutdated(s, t, key, e, id) && (key in t.items ==> t.items[key] == e)
    ensures GotOutdated(s, Step(u, t, a), key, e, id)
  {
  }

  lemma ItemsStay<V>(u: Setup<V>, t: State<V>, a: Action<V>, key: string)
    requires !Rewrites(t, a, key)
    ensures var v := Step(u, t, a);
      && (key in v.items <==> key in t.items && !(a.Continue? && a.ok && Due(t, a.id, key)))
      && (key in v.items ==> v.items[key] == t.items[key])
      && t.clock <= v.clock
  {
  }

  lemma StepKeepsOutdated<V>(u: Setup<V>, s: State<V>, t: State<V>, a: Action<V>, key: string, e: Item<V>)
    requires OnlyOutdated(s, t, key, e) && !Rewrites(t, a, key) && !LocallyExpired(e, t.clock)
    ensures OnlyOutdated(s, Step(u, t, a), key, e)
  {
    var v := Step(u, t, a);
    ItemsStay(u, t, a, key);
    forall id | Due(v, id, key)
      ensures id in s.calls && Outdated(s.calls[id], key, v.clock)
    {
      if Due(t, id, key) {
        OutdatedStays(s.calls[id], key, t.clock, v.clock);
      } else {
        BecomesDue(u, t, a, id, key);
        assert GotOutdated(s, t, key, e, id);
      }
    }
    forall id
      ensures GotOutdated(s, v, key, e, id)
    {
      GotStays(u, s, t, a, key, e, id);
    }
  }

  lemma {:induction false} RunClock<V>(u: Setup<V>, s: State<V>, future: seq<Action<V>>, i: nat)
    requires i <= |future|
    ensures Run(u, s, future[..i]).clock <= Run(u, s, future).clock
    decreases |future|
  {
    if i == |future| {
      assert future[..i] == future;
    } else {
      var n := |future| - 1;
      assert future[..n][..i] == future[..i];
      RunClock(u, s, future[..n], i);
      StepClock(u, Run(u, s, future[..n]), future[n]);
    }
  }

  lemma StepClock<V>(u: Setup<V>, s: State<V>, a: Action<V>)
    ensures s.clock <= Step(u, s, a).clock
  {
  }

  lemma UnwrittenEarlier<V>(u: Setup<V>, s: State<V>, future: seq<Action<V>>, n: nat, key: string)
    requires n <= |future| && Unwritten(u, s, future, key)
    ensures Unwritten(u, s, future[..n], key)
  {
    forall i | 0 <= i < n
      ensures !Rewrites(Run(u, s, future[..n][..i]), future[..n][i], key)
    {
      assert future[..n][..i] == future[..i];
    }
  }

  lemma DeletesEarlier<V>(u: Setup<V>, s: State<V>, future: seq<Action<V>>, n: nat, i: nat, key: string)
    requires i < n <= |future|
    ensures DeletesAt(u, s, future[..n], i, key) <==> DeletesAt(u, s, future, i, key)
  {
    assert future[..n][..i] == future[..i];
  }

  lemma ErasedGrows<V>(u: Setup<V>, s: State<V>, future: seq<Action<V>>, n: nat, key: string)
    requires |future| == n + 1
    ensures Erased(u, s, future, key) <==> Erased(u, s, future[..n], key) || DeletesAt(u, s, future, n, key)
  {
    if i: nat :| DeletesAt(u, s, future, i, key) {
      if i < n {
        DeletesEarlier(u, s, future, n, i, key);
      }
    }
    if i: nat :| DeletesAt(u, s, future[..n], i, key) {
      DeletesEarlier(u, s, future, n, i, key);
    }
  }

  lemma {:induction false} RunKeepsOutdated<V>(u: Setup<V>, s: State<V>, future: seq<Action<V>>, key: string,
                                               e: Item<V>)
    requires OnlyOutdated(s, s, key, e) && Unwritten(u, s, future, key)
    requires !LocallyExpired(e, Run(u, s, future).clock)
    ensures OnlyOutdated(s, Run(u, s, future), key, e)
    ensures key in s.items ==> (key in Run(u, s, future).items <==> !Erased(u, s, future, key))
  {
    if |future| > 0 {
      var n := |future| - 1;
      var t := Run(u, s, future[..n]);
      RunClock(u, s, future, n);
      UnwrittenEarlier(u, s, future, n, key);
      RunKeepsOutdated(u, s, future[..n], key, e);
      StepKeepsOutdated(u, s, t, future[n], key, e);
      ItemsStay(u, t, future[n], key);
      ErasedGrows(u, s, future, n, key);
    }
  }

  lemma DueWasOutdated<V>(s: State<V>, t: State<V>, id: nat, key: string, later: int)
    requires DueOutdated(s, t, key) && Due(t, id, key) && t.clock <= later
    ensures id in s.calls && Outdated(s.calls[id], key, later)
  {
    OutdatedStays(s.calls[id], key, t.clock, later);
  }

  lemma DeleterIsOutdated<V>(u: Setup<V>, s: State<V>, future: seq<Action<V>>, i: nat, key: string, e: Item<V>)
    requires OnlyOutdated(s, s, key, e) && Unwritten(u, s, future, key)
    requires !LocallyExpired(e, Run(u, s, future).clock) && DeletesAt(u, s, future, i, key)
    ensures ErasesAt(u, s, future, i, key)
  {
    RunClock(u, s, future, i);
    UnwrittenEarlier(u, s, future, i, key);
    RunKeepsOutdated(u, s, future[..i], key, e);
    DueWasOutdated(s, Run(u, s, future[..i]), future[i].id, key, Run(u, s, future).clock);
  }

  lemma OutdatedAtFirst<V>(s: State<V>, key: string)
    requires key in s.items
    ensures OnlyOutdated(s, s, key, s.items[key])
  {
  }

  /** While a write is not past its local expiry and its key is neither set nor deleted again, its entry is lost if and
      only if a call that was under way when it was in place, and read an item past its expiry, deletes after it. */
  lemma WriteIsLostIff<V>(u: Setup<V>, s: State<V>, future: seq<Action<V>>, key: string)
    requires key in s.items && Unwritten(u, s, future, key)
    requires !LocallyExpired(s.items[key], Run(u, s, future).clock)
    ensures key !in Run(u, s, future).items <==> exists i: nat :: ErasesAt(u, s, future, i, key)
  {
    var e := s.items[key];
    OutdatedAtFirst(s, key);
    RunKeepsOutdated(u, s, future, key, e);
    if Erased(u, s, future, key) {
      var i: nat :| DeletesAt(u, s, future, i, key);
      DeleterIsOutdated(u, s, future, i, key, e);
    }
  }

  /** A call that can still erase the entry: it has to delete, or holds an item that has a local expiry. */
  predicate CanErase<V>(s: State<V>, id: nat, key: string) {
    id in s.calls &&
    match s.calls[id] {
      case MustDelete(k, _) => k == key
      case Got(k, Some(item), _) => k == key && item.expiresAt > 0
      case _ => false
    }
  }

  ghost predicate Losable<V(!new)>(u: Setup<V>, s: State<V>, key: string) {
    exists future :: Unwritten(u, s, future, key) && key !in Run(u, s, future).items
  }

  /** With local expiry on, a write without expiry can be lost in some continuation without further writes if and only
      if some call under way, a cleanup pass included, has to delete the key or read an older item that expires. */
  lemma FreshWriteLosableIff<V(!new)>(u: Setup<V>, s: State<V>, key: string)
    requires u.local && key in s.items && s.items[key].expiresAt <= 0
    ensures Losable(u, s, key) <==> exists id: nat :: CanErase(s, id, key)
  {
    if Losable(u, s, key) {
      var future: seq<Action<V>> :| Unwritten(u, s, future, key) && key !in Run(u, s, future).items;
      WriteIsLostIff(u, s, future, key);
      var i: nat :| ErasesAt(u, s, future, i, key);
      assert CanErase(s, future[i].id, key);
    }
    if id: nat :| CanErase(s, id, key) {
      var future := Erase(u, s, id, key);
    }
  }

  lemma UnwrittenThen<V>(u: Setup<V>, s: State<V>, front: seq<Action<V>>, a: Action<V>, key: string)
    requires Unwritten(u, s, front, key) && !Rewrites(Run(u, s, front), a, key)
    ensures Unwritten(u, s, front + [a], key)
  {
    var all := front + [a];
    forall i | 0 <= i < |all|
      ensures !Rewrites(Run(u, s, all[..i]), all[i], key)
    {
      assert all[..i] == front[..i];
      assert i == |front| ==> all[..i] == front;
    }
  }

  lemma EraseDue<V>(u: Setup<V>, s: State<V>, front: seq<Action<V>>, id: nat, key: string)
    requires Unwritten(u, s, front, key) && Due(Run(u, s, front), id, key)
    ensures Unwritten(u, s, front + [Continue(id, true)], key)
    ensures key !in Run(u, s, front + [Continue(id, true)]).items
  {
    UnwrittenThen(u, s, front, Continue(id, true), key);
    RunThen(u, s, front, Continue(id, true));
  }

  lemma Erase<V>(u: Setup<V>, s: State<V>, id: nat, key: string) returns (future: seq<Action<V>>)
    requires u.local && CanErase(s, id, key)
    ensures Unwritten(u, s, future, key) && key !in Run(u, s, future).items
  {
    var go := Continue(id, true);
    if s.calls[id].MustDelete? {
      EraseDue(u, s, [], id, key);
      future := [] + [go];
    } else {
      var late := s.calls[id].item.value.expiresAt + 1;
      var wait := Tick(if late > s.clock then late - s.clock else 0);
      UnwrittenThen(u, s, [], wait, key);
      RunThen(u, s, [], wait);
      UnwrittenThen(u, s, [] + [wait], go, key);
      RunThen(u, s, [] + [wait], go);
      EraseDue(u, s, [] + [wait] + [go], id, key);
      future := [] + [wait] + [go] + [go];
    }
  }

  /** A cleanup pass that read an old item before a Set: the fresh value, which never expires, can be erased. */
  lemma CleanupCanEraseFreshSet(u: Setup<int>) returns (actions: seq<Action<int>>)
    requires u.local
    ensures var s := Run(u, Start(), actions);
      "k" in s.items && s.items["k"] == Item(2, 0, 0, 0) && Read(s.items, true, "k", 0) == Some(2) && Losable(u, s, "k")
  {
    var old_, new_ := Item(1, SECOND, SECOND, 0), Item(2, 0, 0, 0);
    actions := [BeginSet(0, "k", 1, SECOND), Continue(0, true), Begin(1, "k", Sweep, true), BeginSet(2, "k", 2, 0),
                Continue(2, true)];
    assert actions[..0] == [];
    RunThen(u, Start(), actions[..0], actions[0]);
    assert actions[..0] + [actions[0]] == actions[..1];
    RunThen(u, Start(), actions[..1], actions[1]);
    assert actions[..1] + [actions[1]] == actions[..2];
    RunThen(u, Start(), actions[..2], actions[2]);
    assert actions[..2] + [actions[2]] == actions[..3];
    RunThen(u, Start(), actions[..3], actions[3]);
    assert actions[..3] + [actions[3]] == actions[..4];
    RunThen(u, Start(), actions[..4], actions[4]);
    assert actions[..4] + [actions[4]] == actions;
    assert Run(u, Start(), actions[..2]).items == map["k" := old_];
    assert Run(u, Start(), actions[..3]).calls[1] == Got("k", Some(old_), Sweep);
    var s := Run(u, Start(), actions);
    assert CanErase(s, 1, "k");
    var future := Erase(u, s, 1, "k");
  }
}
