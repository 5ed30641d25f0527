/** Moving files in a batch: each item is checked, copied and then removed; a failed item does not stop the rest. */
module Moves {
  import opened Bytes
  import opened Paths
  import opened ObjectStore
  import opened Rename

  datatype Item = Item(source: string, destination: string)

  datatype Moved<V> = Moved(objects: Objects<V>, success: bool)

  predicate Allowed(user: string, item: Item) {
    Owns(user, item.source) && Owns(user, item.destination)
  }

  /** The store between the copy and the remove of an item. */
  function CopiedItem<V>(objects: Objects<V>, user: string, item: Item, r: Round): Objects<V> {
    if Allowed(user, item) && r.copied && item.source in objects
    then objects[item.destination := objects[item.source]] else objects
  }

  function MoveOne<V>(objects: Objects<V>, user: string, item: Item, r: Round): Moved<V> {
    var copied := CopiedItem(objects, user, item, r);
    if Allowed(user, item) && r.copied && item.source in objects && r.removed
    then Moved(copied - {item.source}, true) else Moved(copied, false)
  }

  /** The store after one round for each of the first items. */
  function MoveAll<V>(objects: Objects<V>, user: string, items: seq<Item>, rounds: seq<Round>): Objects<V>
    requires |rounds| <= |items|
  {
    if |rounds| == 0 then objects
    else
      var n := |rounds| - 1;
      MoveOne(MoveAll(objects, user, items, rounds[..n]), user, items[n], rounds[n]).objects
  }

  function CountTrue(s: seq<bool>): (n: nat)
    ensures n <= |s|
  {
    if |s| == 0 then 0 else CountTrue(s[..|s| - 1]) + if s[|s| - 1] then 1 else 0
  }

  method MoveItem<V>(store: Store<V>, user: string, item: Item) returns (success: bool, ghost r: Round)
    modifies store
    ensures var own := HasPrefix(item.source, user + "/") && HasPrefix(item.destination, user + "/");
      && (success <==> own && store.failures == old(store.failures))
      && store.failures == old(store.failures) + if own && !success then 1 else 0
    ensures Moved(store.objects, success) == MoveOne(old(store.objects), user, item, r)
  {
    r := Round(false, false);
    if !HasPrefix(item.source, user + "/") || !HasPrefix(item.destination, user + "/") {
      return false, r;
    }
    var copied := store.CopyObject(item.destination, item.source);
    if !copied {
      return false, r;
    }
    success := store.RemoveObject(item.source);
    r := Round(true, success);
  }

  /** Each result is that of its own item, on the store its predecessors left. */
  ghost predicate Answers<V>(objects: Objects<V>, user: string, items: seq<Item>, rounds: seq<Round>,
                             results: seq<bool>)
    requires |results| == |rounds| <= |items|
  {
    forall i | 0 <= i < |rounds| ::
      results[i] == MoveOne(MoveAll(objects, user, items, rounds[..i]), user, items[i], rounds[i]).success
  }

  lemma OneMoreMoved<V>(objects: Objects<V>, user: string, items: seq<Item>, rounds: seq<Round>, results: seq<bool>,
                        r: Round, moved: bool, next: Objects<V>)
    requires |results| == |rounds| < |items| && Answers(objects, user, items, rounds, results)
    requires Moved(next, moved) == MoveOne(MoveAll(objects, user, items, rounds), user, items[|rounds|], r)
    ensures MoveAll(objects, user, items, rounds + [r]) == next
    ensures Answers(objects, user, items, rounds + [r], results + [moved])
    ensures CountTrue(results + [moved]) == CountTrue(results) + if moved then 1 else 0
  {
    var more := rounds + [r];
    assert more[..|rounds|] == rounds && (results + [moved])[..|results|] == results;
    forall i | 0 <= i < |more|
      ensures (results + [moved])[i]
           == MoveOne(MoveAll(objects, user, items, more[..i]), user, items[i], more[i]).success
    {
      assert i < |rounds| ==> more[..i] == rounds[..i];
    }
  }

  ghost predicate OnlyAllowed(user: string, items: seq<Item>, results: seq<bool>)
    requires |results| <= |items|
  {
    forall i | 0 <= i < |results| && results[i] :: Allowed(user, items[i])
  }

  ghost predicate EveryAllowed(user: string, items: seq<Item>, results: seq<bool>)
    requires |results| <= |items|
  {
    forall i | 0 <= i < |results| && Allowed(user, items[i]) :: results[i]
  }

  /** How many items between the user's own keys were not moved. */
  function Unmoved(user: string, items: seq<Item>, results: seq<bool>): nat
    requires |results| <= |items|
  {
    if |results| == 0 then 0
    else
      var n := |results| - 1;
      Unmoved(user, items, results[..n])
      + if HasPrefix(items[n].source, user + "/") && HasPrefix(items[n].destination, user + "/") && !results[n] then 1
        else 0
  }

  lemma {:induction false} NoneUnmoved(user: string, items: seq<Item>, results: seq<bool>)
    requires |results| <= |items|
    ensures Unmoved(user, items, results) == 0 <==> EveryAllowed(user, items, results)
  {
    if |results| > 0 {
      var n := |results| - 1;
      NoneUnmoved(user, items, results[..n]);
      assert forall i | 0 <= i < n :: results[..n][i] == results[i];
    }
  }

  lemma OneMoreAllowed(user: string, items: seq<Item>, results: seq<bool>, moved: bool)
    requires |results| < |items| && OnlyAllowed(user, items, results) && (moved ==> Allowed(user, items[|results|]))
    ensures OnlyAllowed(user, items, results + [moved])
    ensures Unmoved(user, items, results + [moved])
         == Unmoved(user, items, results) + if Allowed(user, items[|results|]) && !moved then 1 else 0
  {
    assert (results + [moved])[..|results|] == results;
  }

  /** A batch so far: the store and each result are as the items say, only items between the user's own keys succeeded,
      and each of those that did not cost one failed store call. */
  ghost predicate BatchDone<V>(objects: Objects<V>, user: string, items: seq<Item>, rounds: seq<Round>,
                               results: seq<bool>, now: Objects<V>, failures: int)
    requires |results| == |rounds| <= |items|
  {
    && now == MoveAll(objects, user, items, rounds)
    && Answers(objects, user, items, rounds, results)
    && OnlyAllowed(user, items, results)
    && failures == Unmoved(user, items, results)
  }

  lemma OneMoreDone<V>(objects: Objects<V>, user: string, items: seq<Item>, rounds: seq<Round>, results: seq<bool>,
                       r: Round, moved: bool, now: Objects<V>, next: Objects<V>, failures: int, failures': int)
    requires |results| == |rounds| < |items| && BatchDone(objects, user, items, rounds, results, now, failures)
    requires Moved(next, moved) == MoveOne(now, user, items[|rounds|], r)
    requires moved ==> Allowed(user, items[|rounds|])
    requires failures' == failures + if Allowed(user, items[|rounds|]) && !moved then 1 else 0
    ensures BatchDone(objects, user, items, rounds + [r], results + [moved], next, failures')
    ensures CountTrue(results + [moved]) == CountTrue(results) + if moved then 1 else 0
  {
    OneMoreMoved(objects, user, items, rounds, results, r, moved, next);
    OneMoreAllowed(user, items, results, moved);
  }

  /** One item after the other, each on the store its predecessors left; a failed item does not stop the rest. */
  method MoveFiles<V>(store: Store<V>, user: string, items: seq<Item>)
    returns (results: seq<bool>, success: nat, failed: nat, ghost rounds: seq<Round>)
    modifies store
    ensures |results| == |rounds| == |items| == success + failed && success == CountTrue(results)
    ensures BatchDone(old(store.objects), user, items, rounds, results, store.objects,
                      store.failures - old(store.failures))
    ensures store.failures == old(store.failures) <==> EveryAllowed(user, items, results)
  {
    results, success, failed, rounds := [], 0, 0, [];
    ghost var objects, failures := store.objects, store.failures;
    for n := 0 to |items|
      invariant |rounds| == |results| == n == success + failed && success == CountTrue(results)
      invariant store.failures >= failures
      invariant BatchDone(objects, user, items, rounds, results, store.objects, store.failures - failures)
    {
      var moved;
      ghost var r;
      moved, r := MoveNext(store, user, items, objects, rounds, results, failures);
      results, rounds := results + [moved], rounds + [r];
      if moved {
        success := success + 1;
      } else {
        failed := failed + 1;
      }
    }
    NoneUnmoved(user, items, results);
  }

  method MoveNext<V>(store: Store<V>, user: string, items: seq<Item>, ghost objects: Objects<V>,
                     ghost rounds: seq<Round>, results: seq<bool>, ghost failures: nat)
    returns (moved: bool, ghost r: Round)
    requires |rounds| == |results| < |items| && failures <= store.failures
    requires BatchDone(objects, user, items, rounds, results, store.objects, store.failures - failures)
    modifies store
    ensures store.failures >= old(store.failures)
    ensures CountTrue(results + [moved]) == CountTrue(results) + if moved then 1 else 0
    ensures BatchDone(objects, user, items, rounds + [r], results + [moved], store.objects, store.failures - failures)
  {
    moved, r := MoveItem(store, user, items[|results|]);
    OneMoreDone(objects, user, items, rounds, results, r, moved, old(store.objects), store.objects,
                old(store.failures) - failures, store.failures - failures);
  }

  /** One item loses its content exactly when it names one key twice and both calls work; between the calls never. */
  lemma MoveLosesIff<V>(objects: Objects<V>, user: string, item: Item, r: Round)
    requires item.source in objects
    ensures var v := objects[item.source]; var now := MoveOne(objects, user, item, r).objects;
      && Holds(CopiedItem(objects, user, item, r), item.source, v)
      && (Holds(now, item.source, v) || Holds(now, item.destination, v)
          <==> !(item.source == item.destination && Allowed(user, item) && r.copied && r.removed))
  {
  }

  /** Whatever a batch asks for and whichever calls fail, no other user's object changes. */
  lemma {:induction false} OthersUntouched<V>(objects: Objects<V>, user: string, items: seq<Item>, rounds: seq<Round>,
                                              key: string)
    requires |rounds| <= |items| && !Owns(user, key)
    ensures var now := MoveAll(objects, user, items, rounds);
      (key in now <==> key in objects) && (key in objects ==> now[key] == objects[key])
  {
    if |rounds| > 0 {
      OthersUntouched(objects, user, items, rounds[..|rounds| - 1], key);
    }
  }

  /** No destination is an existing object, the source of some item, or the destination of another. */
  ghost predicate Independent<V>(objects: Objects<V>, items: seq<Item>) {
    && (forall i, j | 0 <= i < |items| && 0 <= j < |items| :: items[i].destination != items[j].source)
    && (forall i, j | 0 <= i < j < |items| :: items[i].destination != items[j].destination)
    && (forall i | 0 <= i < |items| :: items[i].destination !in objects)
  }

  predicate SentTo(items: seq<Item>, n: nat, from: string, to: string)
    requires n <= |items|
  {
    exists i | 0 <= i < n :: items[i] == Item(from, to)
  }

  /** The value is still under its key or at the destination of an item that named it. */
  ghost predicate Present<V>(items: seq<Item>, n: nat, now: Objects<V>, k: string, v: V)
    requires n <= |items|
  {
    Holds(now, k, v) || exists to :: SentTo(items, n, k, to) && Holds(now, to, v)
  }

  ghost predicate AllPresent<V>(objects: Objects<V>, items: seq<Item>, n: nat, now: Objects<V>)
    requires n <= |items|
  {
    forall k | k in objects :: Present(items, n, now, k, objects[k])
  }

  /** A step that leaves every key but the source alone, except for writing the destination. */
  ghost predicate OnlyMoves<V>(item: Item, now: Objects<V>, next: Objects<V>) {
    && (forall k | k in now && k != item.source && k != item.destination :: Holds(next, k, now[k]))
    && (item.source in now ==>
          Holds(next, item.source, now[item.source]) || Holds(next, item.destination, now[item.source]))
  }

  lemma KeyKept<V>(objects: Objects<V>, items: seq<Item>, n: nat, now: Objects<V>, next: Objects<V>, k: string)
    requires Independent(objects, items) && n < |items| && OnlyMoves(items[n], now, next)
    requires k in objects && Present(items, n, now, k, objects[k])
    ensures Present(items, n + 1, next, k, objects[k])
  {
    var item := items[n];
    if Holds(now, k, objects[k]) {
      assert k == item.source ==> SentTo(items, n + 1, k, item.destination);
    } else {
      var to :| SentTo(items, n, k, to) && Holds(now, to, objects[k]);
      var i :| 0 <= i < n && items[i] == Item(k, to);
      assert items[i].destination != item.source && items[i].destination != items[n].destination;
      assert SentTo(items, n + 1, k, to);
    }
  }

  lemma ItemKeepsAll<V>(objects: Objects<V>, user: string, items: seq<Item>, n: nat, r: Round, now: Objects<V>)
    requires Independent(objects, items) && n < |items|
    requires AllPresent(objects, items, n, now)
    ensures AllPresent(objects, items, n + 1, CopiedItem(now, user, items[n], r))
    ensures AllPresent(objects, items, n + 1, MoveOne(now, user, items[n], r).objects)
  {
    assert items[n].destination != items[n].source;
    forall k | k in objects
      ensures Present(items, n + 1, CopiedItem(now, user, items[n], r), k, objects[k])
      ensures Present(items, n + 1, MoveOne(now, user, items[n], r).objects, k, objects[k])
    {
      KeyKept(objects, items, n, now, CopiedItem(now, user, items[n], r), k);
      KeyKept(objects, items, n, now, MoveOne(now, user, items[n], r).objects, k);
    }
  }

  /** A batch of independent moves never loses an object, at any moment, whichever calls fail. */
  lemma {:induction false} BatchLosesNothing<V>(objects: Objects<V>, user: string, items: seq<Item>,
                                                rounds: seq<Round>)
    requires Independent(objects, items) && |rounds| <= |items|
    ensures AllPresent(objects, items, |rounds|, MoveAll(objects, user, items, rounds))
  {
    if |rounds| > 0 {
      var n := |rounds| - 1;
      BatchLosesNothing(objects, user, items, rounds[..n]);
      ItemKeepsAll(objects, user, items, n, rounds[n], MoveAll(objects, user, items, rounds[..n]));
    }
  }

  /** The same between the copy and the remove of the next item. */
  lemma BatchLosesNothingBetween<V>(objects: Objects<V>, user: string, items: seq<Item>, rounds: seq<Round>, r: Round)
    requires Independent(objects, items) && |rounds| < |items|
    ensures AllPresent(objects, items, |rounds| + 1,
              CopiedItem(MoveAll(objects, user, items, rounds), user, items[|rounds|], r))
  {
    BatchLosesNothing(objects, user, items, rounds);
    ItemKeepsAll(objects, user, items, |rounds|, r, MoveAll(objects, user, items, rounds));
  }

  // ---- exactly when a working batch loses nothing ----

  ghost predicate HasContent<V>(objects: Objects<V>, v: V) {
    exists k :: k in objects && objects[k] == v
  }

  /** Every content of the first store is still somewhere in the second. */
  ghost predicate Keeps<V>(objects: Objects<V>, now: Objects<V>) {
    forall k | k in objects :: HasContent(now, objects[k])
  }

  /** What a working batch leaves of a set of keys. */
  function KeysAfter(keys: set<string>, user: string, items: seq<Item>): set<string> {
    if |items| == 0 then keys
    else
      var before := KeysAfter(keys, user, items[..|items| - 1]);
      var item := items[|items| - 1];
      if Allowed(user, item) && item.source in before then before + {item.destination} - {item.source} else before
  }

  /** An item between the user's own keys whose source is an object at its turn and whose destination is one too. */
  predicate Overwrites(keys: set<string>, user: string, items: seq<Item>, i: nat) {
    i < |items| && Allowed(user, items[i])
    && items[i].source in KeysAfter(keys, user, items[..i]) && items[i].destination in KeysAfter(keys, user, items[..i])
  }

  ghost predicate NoOverwrite(keys: set<string>, user: string, items: seq<Item>) {
    forall i: nat :: !Overwrites(keys, user, items, i)
  }

  lemma NoOverwriteOneMore(keys: set<string>, user: string, items: seq<Item>, n: nat)
    requires |items| == n + 1
    ensures NoOverwrite(keys, user, items)
            <==> NoOverwrite(keys, user, items[..n]) && !Overwrites(keys, user, items, n)
  {
    forall i: nat | i < n
      ensures Overwrites(keys, user, items[..n], i) <==> Overwrites(keys, user, items, i)
    {
      assert items[..n][..i] == items[..i];
    }
  }

  /** One working item on a store with distinct contents: nothing new appears, and nothing goes unless it overwrites. */
  lemma OneItemKeepsIff<V>(now: Objects<V>, user: string, item: Item)
    requires DistinctContents(now)
    ensures var next := MoveOne(now, user, item, Round(true, true)).objects;
      && DistinctContents(next) && Keeps(next, now)
      && (Keeps(now, next) <==> !(Allowed(user, item) && item.source in now && item.destination in now))
      && next.Keys == (if Allowed(user, item) && item.source in now
                       then now.Keys + {item.destination} - {item.source} else now.Keys)
  {
    var next := MoveOne(now, user, item, Round(true, true)).objects;
    if Allowed(user, item) && item.source in now {
      MovedKeepsIff(now, next, item.source, item.destination);
    } else {
      assert next == now;
    }
  }

  lemma MovedKeepsIff<V>(now: Objects<V>, next: Objects<V>, source: string, destination: string)
    requires DistinctContents(now) && source in now && next == now[destination := now[source]] - {source}
    ensures DistinctContents(next) && Keeps(next, now) && (Keeps(now, next) <==> destination !in now)
  {
    if destination in now {
      assert !HasContent(next, now[destination]);
    } else {
      forall k | k in now
        ensures HasContent(next, now[k])
      {
        assert if k == source then Holds(next, destination, now[k]) else Holds(next, k, now[k]);
      }
    }
  }

  lemma KeepsChain<V>(a: Objects<V>, b: Objects<V>, c: Objects<V>)
    requires Keeps(a, b) && Keeps(b, c)
    ensures Keeps(a, c)
  {
    forall k | k in a
      ensures HasContent(c, a[k])
    {
      var k' :| k' in b && b[k'] == a[k];
    }
  }

  /** What is known of a working batch: its keys, and that it keeps every content unless it overwrites. */
  ghost predicate KeepsUnless<V>(objects: Objects<V>, user: string, items: seq<Item>, now: Objects<V>) {
    && now.Keys == KeysAfter(objects.Keys, user, items)
    && DistinctContents(now) && Keeps(now, objects)
    && (Keeps(objects, now) <==> NoOverwrite(objects.Keys, user, items))
  }

  lemma KeepsAtFirst<V>(objects: Objects<V>, user: string)
    requires DistinctContents(objects)
    ensures KeepsUnless(objects, user, [], objects)
  {
  }

  lemma KeepsOneMore<V>(objects: Objects<V>, user: string, items: seq<Item>, n: nat, before: Objects<V>)
    requires |items| == n + 1 && KeepsUnless(objects, user, items[..n], before)
    ensures KeepsUnless(objects, user, items, MoveOne(before, user, items[n], Round(true, true)).objects)
  {
    var now := MoveOne(before, user, items[n], Round(true, true)).objects;
    OneItemKeepsIff(before, user, items[n]);
    NoOverwriteOneMore(objects.Keys, user, items, n);
    KeepsChain(now, before, objects);
    KeepsStep(objects, before, now);
  }

  lemma {:induction false} BatchIsKept<V>(objects: Objects<V>, user: string, items: seq<Item>, rounds: seq<Round>)
    requires DistinctContents(objects) && |rounds| == |items| && AllWork(rounds)
    ensures KeepsUnless(objects, user, items, MoveAll(objects, user, items, rounds))
  {
    if |items| == 0 {
      KeepsAtFirst(objects, user);
      assert items == [];
    } else {
      var n := |items| - 1;
      BatchIsKept(objects, user, items[..n], rounds[..n]);
      SameBatch(objects, user, items, rounds, n);
      KeepsOneMore(objects, user, items, n, MoveAll(objects, user, items[..n], rounds[..n]));
    }
  }

  /** When every call works and no two objects have the same content, a batch loses no content if and only if no item
      finds both its source and its destination in the store at its turn, which the keys alone decide. */
  lemma BatchKeepsIff<V>(objects: Objects<V>, user: string, items: seq<Item>, rounds: seq<Round>)
    requires DistinctContents(objects) && |rounds| == |items| && AllWork(rounds)
    ensures Keeps(objects, MoveAll(objects, user, items, rounds)) <==> NoOverwrite(objects.Keys, user, items)
  {
    BatchIsKept(objects, user, items, rounds);
  }

  lemma {:induction false} SameBatch<V>(objects: Objects<V>, user: string, items: seq<Item>, rounds: seq<Round>, n: nat)
    requires n <= |rounds| <= |items|
    ensures MoveAll(objects, user, items[..n], rounds[..n]) == MoveAll(objects, user, items, rounds[..n])
    decreases n
  {
    if n > 0 {
      SameBatch(objects, user, items, rounds[..n], n - 1);
      SameBatch(objects, user, items[..n], rounds[..n], n - 1);
      assert rounds[..n][..n - 1] == rounds[..n - 1] && items[..n][..n - 1] == items[..n - 1];
    }
  }

  /** Contents that went once do not come back. */
  lemma KeepsStep<V>(objects: Objects<V>, before: Objects<V>, now: Objects<V>)
    requires Keeps(before, objects) && Keeps(now, before)
    ensures Keeps(objects, now) <==> Keeps(objects, before) && Keeps(before, now)
  {
    if Keeps(objects, now) {
      KeepsChain(objects, now, before);
      KeepsChain(before, objects, now);
    } else if Keeps(objects, before) && Keeps(before, now) {
      KeepsChain(objects, before, now);
    }
  }
}
