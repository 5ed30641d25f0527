/** Renaming a folder: copy then remove, key by key, over a listing taken first. */
module Rename {
  import opened Bytes
  import opened Paths
  import opened ObjectStore

  datatype Plan = Plan(from: string, to: string)

  function Target(plan: Plan, key: string): string {
    ReplaceFirst(key, plan.from, plan.to)
  }

  lemma TargetOf(plan: Plan, key: string)
    requires HasPrefix(key, plan.from)
    ensures Target(plan, key) == plan.to + key[|plan.from|..]
    ensures HasPrefix(Target(plan, key), plan.to)
  {
    assert Target(plan, key) == key[..0] + plan.to + key[|plan.from|..];
    PrefixOfConcat(plan.to, key[|plan.from|..]);
  }

  lemma TargetInjective(plan: Plan, k1: string, k2: string)
    requires HasPrefix(k1, plan.from) && HasPrefix(k2, plan.from) && Target(plan, k1) == Target(plan, k2)
    ensures k1 == k2
  {
    TargetOf(plan, k1);
    TargetOf(plan, k2);
    PrefixOfConcat(plan.to, k1[|plan.from|..]);
    PrefixOfConcat(plan.to, k2[|plan.from|..]);
    PrefixSplit(k1, plan.from);
    PrefixSplit(k2, plan.from);
  }

  lemma TargetMoves(plan: Plan, key: string)
    requires HasPrefix(key, plan.from) && plan.from != plan.to
    ensures Target(plan, key) != key
  {
    TargetOf(plan, key);
    assert |plan.from| == |plan.to| ==> Target(plan, key)[..|plan.from|] == plan.to && key[..|plan.from|] == plan.from;
  }

  // ---- the loop ----

  /** Which calls of one round work. */
  datatype Round = Round(copied: bool, removed: bool)

  datatype Progress<V> = Progress(objects: Objects<V>, aborted: bool)

  function Copied<V>(objects: Objects<V>, plan: Plan, key: string, r: Round): Progress<V> {
    if r.copied && key in objects then Progress(objects[Target(plan, key) := objects[key]], false)
    else Progress(objects, true)
  }

  function Removed<V>(p: Progress<V>, key: string, r: Round): Progress<V> {
    if !p.aborted && r.removed then p.(objects := p.objects - {key}) else p
  }

  /** The state after n rounds; once a copy fails nothing more happens. */
  function After<V>(objects: Objects<V>, plan: Plan, keys: seq<string>, rounds: seq<Round>, n: nat): Progress<V>
    requires n <= |keys| == |rounds|
  {
    if n == 0 then Progress(objects, false)
    else
      var p := After(objects, plan, keys, rounds, n - 1);
      if p.aborted then p
      else Removed(Copied(p.objects, plan, keys[n - 1], rounds[n - 1]), keys[n - 1], rounds[n - 1])
  }

  /** The state between the copy and the remove of round n. */
  function Between<V>(objects: Objects<V>, plan: Plan, keys: seq<string>, rounds: seq<Round>, n: nat): Progress<V>
    requires n < |keys| == |rounds|
  {
    var p := After(objects, plan, keys, rounds, n);
    if p.aborted then p else Copied(p.objects, plan, keys[n], rounds[n])
  }

  /** Rounds whose copy worked and whose remove failed. */
  function LeftBehind(rounds: seq<Round>): nat {
    if |rounds| == 0 then 0
    else LeftBehind(rounds[..|rounds| - 1])
         + if rounds[|rounds| - 1].copied && !rounds[|rounds| - 1].removed then 1 else 0
  }

  lemma {:induction false} LeftBehindAt(rounds: seq<Round>, i: nat, r: Round)
    requires i < |rounds|
    ensures LeftBehind(rounds[i := r])
         == LeftBehind(rounds) - (if rounds[i].copied && !rounds[i].removed then 1 else 0)
            + (if r.copied && !r.removed then 1 else 0)
  {
    var n := |rounds| - 1;
    if i == n {
      assert rounds[i := r][..n] == rounds[..n];
    } else {
      assert rounds[i := r][..n] == rounds[..n][i := r];
      LeftBehindAt(rounds[..n], i, r);
    }
  }

  lemma {:induction false} NoneLeftBehind(rounds: seq<Round>)
    requires forall i | 0 <= i < |rounds| :: rounds[i] == Round(false, false)
    ensures LeftBehind(rounds) == 0
  {
    if |rounds| > 0 {
      NoneLeftBehind(rounds[..|rounds| - 1]);
    }
  }

  lemma {:induction false} NoneLeftMeansRemoved(rounds: seq<Round>)
    requires LeftBehind(rounds) == 0 && forall i | 0 <= i < |rounds| :: rounds[i].copied
    ensures AllWork(rounds)
  {
    if |rounds| > 0 {
      var n := |rounds| - 1;
      NoneLeftMeansRemoved(rounds[..n]);
      assert forall i | 0 <= i < n :: rounds[i] == rounds[..n][i];
      assert rounds[n] == Round(true, true);
    }
  }

  /** One round: the copy, and if it works the remove. */
  method RenameOne<V>(store: Store<V>, plan: Plan, key: string) returns (copied: bool, ghost r: Round)
    modifies store
    ensures Progress(store.objects, !copied) == Removed(Copied(old(store.objects), plan, key, r), key, r)
    ensures r.copied == copied && (r.removed ==> copied)
    ensures store.failures == old(store.failures) + if r.removed then 0 else 1
  {
    r := Round(false, false);
    copied := store.CopyObject(Target(plan, key), key);
    if copied {
      var removed := store.RemoveObject(key);
      r := Round(true, removed);
    }
  }

  /** The loop before round i: the rounds so far are noted and none failed to copy. */
  ghost predicate Renaming<V>(objects: Objects<V>, plan: Plan, keys: seq<string>, rounds: seq<Round>, i: nat,
                              now: Objects<V>, failures: int)
    requires i <= |keys| == |rounds|
  {
    && After(objects, plan, keys, rounds, i) == Progress(now, false)
    && (forall j | 0 <= j < i :: rounds[j].copied)
    && (forall j | i <= j < |rounds| :: rounds[j] == Round(false, false))
    && LeftBehind(rounds) == failures
  }

  lemma RenamingStarts<V>(objects: Objects<V>, plan: Plan, keys: seq<string>) returns (rounds: seq<Round>)
    ensures |rounds| == |keys| && Renaming(objects, plan, keys, rounds, 0, objects, 0)
  {
    rounds := seq(|keys|, i => Round(false, false));
    NoneLeftBehind(rounds);
  }

  lemma RenamingGoesOn<V>(objects: Objects<V>, plan: Plan, keys: seq<string>, rounds: seq<Round>, i: nat,
                          now: Objects<V>, failures: int, r: Round, next: Objects<V>)
    requires i < |keys| == |rounds| && Renaming(objects, plan, keys, rounds, i, now, failures)
    requires Progress(next, !r.copied) == Removed(Copied(now, plan, keys[i], r), keys[i], r)
    requires r.removed ==> r.copied
    ensures if r.copied
            then Renaming(objects, plan, keys, rounds[i := r], i + 1, next, failures + if r.removed then 0 else 1)
            else After(objects, plan, keys, rounds, |keys|) == Progress(next, true) && LeftBehind(rounds) == failures
  {
    RoundDone(objects, plan, keys, rounds, i, r, now);
    LeftBehindAt(rounds, i, r);
    if !r.copied {
      assert rounds[i := r] == rounds;
      StaysAborted(objects, plan, keys, rounds, i + 1);
    }
  }

  lemma RenamingEnds<V>(objects: Objects<V>, plan: Plan, keys: seq<string>, rounds: seq<Round>, now: Objects<V>,
                        failures: int)
    requires |keys| == |rounds| && Renaming(objects, plan, keys, rounds, |keys|, now, failures)
    ensures After(objects, plan, keys, rounds, |keys|).objects == now && LeftBehind(rounds) == failures
    ensures forall i | 0 <= i < |rounds| :: rounds[i].copied
    ensures failures == 0 ==> AllWork(rounds)
  {
    if failures == 0 {
      NoneLeftMeansRemoved(rounds);
    }
  }

  /** A failed listing changes nothing; `keys` is the listing the rounds ran over. Every failed store call is a remove
      that was skipped, or the one listing or copy that stopped the call with an error. */
  method RenameFolderObjects<V>(store: Store<V>, user: string, oldPath: string, newPath: string)
    returns (ok: bool, ghost keys: seq<string>, ghost rounds: seq<Round>)
    modifies store
    ensures |keys| == |rounds|
    ensures var plan := Plan(FolderPrefix(user, oldPath), FolderPrefix(user, newPath));
            store.objects == After(old(store.objects), plan, keys, rounds, |keys|).objects
    ensures store.failures == old(store.failures) + LeftBehind(rounds) + if ok then 0 else 1
    ensures ok ==> forall i | 0 <= i < |rounds| :: rounds[i].copied
    ensures store.failures == old(store.failures) ==> ok && AllWork(rounds)
    ensures ok || keys != [] ==> IsListing(keys, old(store.objects), FolderPrefix(user, oldPath))
  {
    var oldPrefix := user + "/" + oldPath + "/";
    var newPrefix := user + "/" + newPath + "/";
    if oldPath == "" {
      oldPrefix := user + "/";
    }
    if newPath == "" {
      newPrefix := user + "/";
    }
    var plan := Plan(oldPrefix, newPrefix);
    var listing, listed := store.ListObjects(oldPrefix);
    if !listed {
      return false, [], [];
    }
    keys := listing;
    ghost var objects, failures := store.objects, store.failures;
    rounds := RenamingStarts(objects, plan, keys);
    for i := 0 to |listing|
      invariant keys == listing && |rounds| == |keys|
      invariant Renaming(objects, plan, keys, rounds, i, store.objects, store.failures - failures)
    {
      var copied;
      ghost var r, now, before := Round(false, false), store.objects, store.failures;
      copied, r := RenameOne(store, plan, listing[i]);
      RenamingGoesOn(objects, plan, keys, rounds, i, now, before - failures, r, store.objects);
      if !copied {
        return false, keys, rounds;
      }
      rounds := rounds[i := r];
    }
    ok := true;
    RenamingEnds(objects, plan, keys, rounds, store.objects, store.failures - failures);
  }

  lemma {:induction false} SameStart<V>(objects: Objects<V>, plan: Plan, keys: seq<string>, r1: seq<Round>,
                                        r2: seq<Round>, n: nat)
    requires n <= |keys| == |r1| == |r2| && r1[..n] == r2[..n]
    ensures After(objects, plan, keys, r1, n) == After(objects, plan, keys, r2, n)
  {
    if n > 0 {
      assert r1[..n - 1] == r1[..n][..n - 1] && r1[n - 1] == r1[..n][n - 1] && r2[n - 1] == r2[..n][n - 1];
      SameStart(objects, plan, keys, r1, r2, n - 1);
    }
  }

  /** The next round, noted where nothing was noted yet. */
  lemma RoundDone<V>(objects: Objects<V>, plan: Plan, keys: seq<string>, rounds: seq<Round>, i: nat, r: Round,
                     now: Objects<V>)
    requires i < |keys| == |rounds| && After(objects, plan, keys, rounds, i) == Progress(now, false)
    ensures After(objects, plan, keys, rounds[i := r], i + 1) == Removed(Copied(now, plan, keys[i], r), keys[i], r)
  {
    SameStart(objects, plan, keys, rounds, rounds[i := r], i);
  }

  lemma {:induction false} StaysAborted<V>(objects: Objects<V>, plan: Plan, keys: seq<string>, rounds: seq<Round>,
                                           n: nat)
    requires n <= |keys| == |rounds| && After(objects, plan, keys, rounds, n).aborted
    ensures After(objects, plan, keys, rounds, |keys|) == After(objects, plan, keys, rounds, n)
    decreases |keys| - n
  {
    if n < |keys| {
      StaysAborted(objects, plan, keys, rounds, n + 1);
    }
  }

  // ---- what the loop keeps ----

  /** No copy lands on an object that is still needed. */
  ghost predicate NonClobbering<V>(objects: Objects<V>, plan: Plan, keys: seq<string>) {
    && plan.from != plan.to
    && IsListing(keys, objects, plan.from)
    && (forall k {:trigger Target(plan, k)} | k in keys && Target(plan, k) in objects :: Target(plan, k) in keys)
    && (forall i, j {:trigger Target(plan, keys[i]), keys[j]} | 0 <= i < j < |keys| :: Target(plan, keys[i]) != keys[j])
  }

  ghost predicate Holds<V>(objects: Objects<V>, key: string, value: V) {
    key in objects && objects[key] == value
  }

  /** Every object is where it was or where it was sent, and nothing else changed. */
  ghost predicate NothingLost<V>(objects: Objects<V>, plan: Plan, keys: seq<string>, now: Objects<V>) {
    && (forall k | k in keys && k in objects :: Holds(now, k, objects[k]) || Holds(now, Target(plan, k), objects[k]))
    && (forall k | k in objects && k !in keys :: Holds(now, k, objects[k]))
    && (forall k | k in now && k !in objects :: exists k' :: k' in keys && k == Target(plan, k'))
  }

  ghost predicate AtTargets<V>(objects: Objects<V>, plan: Plan, keys: seq<string>, n: nat, now: Objects<V>)
    requires n <= |keys|
  {
    forall i {:trigger Target(plan, keys[i])} | 0 <= i < n ::
      keys[i] in objects && Holds(now, Target(plan, keys[i]), objects[keys[i]])
  }

  ghost predicate InPlace<V>(objects: Objects<V>, keys: seq<string>, n: nat, now: Objects<V>) {
    forall i | n <= i < |keys| :: keys[i] in objects && Holds(now, keys[i], objects[keys[i]])
  }

  ghost predicate OthersKept<V>(objects: Objects<V>, keys: seq<string>, now: Objects<V>) {
    forall k | k in objects && k !in keys :: Holds(now, k, objects[k])
  }

  predicate IsTarget(plan: Plan, keys: seq<string>, n: nat, k: string)
    requires n <= |keys|
  {
    exists i | 0 <= i < n :: k == Target(plan, keys[i])
  }

  ghost predicate NoStrangers<V>(objects: Objects<V>, plan: Plan, keys: seq<string>, n: nat, now: Objects<V>)
    requires n <= |keys|
  {
    forall k | k in now && k !in objects :: IsTarget(plan, keys, n, k)
  }

  /** A source whose remove worked is gone, unless a later round was sent to its key. */
  ghost predicate SourcesGone<V>(plan: Plan, keys: seq<string>, rounds: seq<Round>, n: nat, now: Objects<V>)
    requires n <= |keys| == |rounds|
  {
    forall i {:trigger rounds[i]} | 0 <= i < n && rounds[i].removed && keys[i] in now ::
      IsTarget(plan, keys, n, keys[i])
  }

  /** Rounds before n are at their targets, later ones still in place, everything else as it was. */
  ghost predicate Reached<V>(objects: Objects<V>, plan: Plan, keys: seq<string>, rounds: seq<Round>, n: nat,
                             now: Objects<V>)
    requires n <= |keys| == |rounds|
  {
    && AtTargets(objects, plan, keys, n, now)
    && InPlace(objects, keys, n, now)
    && OthersKept(objects, keys, now)
    && NoStrangers(objects, plan, keys, n, now)
    && SourcesGone(plan, keys, rounds, n, now)
  }

  lemma TargetGrows(plan: Plan, keys: seq<string>, n: nat, k: string)
    requires n < |keys| && (IsTarget(plan, keys, n, k) || k == Target(plan, keys[n]))
    ensures IsTarget(plan, keys, n + 1, k)
  {
  }

  lemma TargetIsFree<V>(objects: Objects<V>, plan: Plan, keys: seq<string>, n: nat)
    requires NonClobbering(objects, plan, keys) && n < |keys|
    ensures var t := Target(plan, keys[n]);
      && t != keys[n]
      && (t in objects ==> exists i :: 0 <= i < n && keys[i] == t)
      && (forall i | n < i < |keys| :: keys[i] != t)
      && (forall i | 0 <= i < |keys| && i != n :: Target(plan, keys[i]) != t)
  {
    var t := Target(plan, keys[n]);
    assert keys[n] in keys;
    TargetMoves(plan, keys[n]);
    forall i | 0 <= i < |keys| && i != n
      ensures Target(plan, keys[i]) != t
    {
      assert keys[i] in keys;
      if Target(plan, keys[i]) == t {
        TargetInjective(plan, keys[i], keys[n]);
      }
    }
    if t in objects {
      var j :| 0 <= j < |keys| && keys[j] == t;
      assert j < n;
    }
  }

  lemma CopyKeeps<V>(objects: Objects<V>, plan: Plan, keys: seq<string>, n: nat, now: Objects<V>)
    requires NonClobbering(objects, plan, keys) && n < |keys|
    requires AtTargets(objects, plan, keys, n, now) && InPlace(objects, keys, n, now) && OthersKept(objects, keys, now)
    ensures keys[n] in now
    ensures var c := now[Target(plan, keys[n]) := now[keys[n]]];
      && AtTargets(objects, plan, keys, n + 1, c) && InPlace(objects, keys, n, c) && OthersKept(objects, keys, c)
  {
    TargetIsFree(objects, plan, keys, n);
    assert InPlace(objects, keys, n, now) ==> Holds(now, keys[n], objects[keys[n]]);
  }

  lemma RemoveKeeps<V>(objects: Objects<V>, plan: Plan, keys: seq<string>, n: nat, now: Objects<V>)
    requires NonClobbering(objects, plan, keys) && n < |keys|
    requires AtTargets(objects, plan, keys, n + 1, now) && InPlace(objects, keys, n, now)
    requires OthersKept(objects, keys, now)
    ensures var c := now - {keys[n]};
      && AtTargets(objects, plan, keys, n + 1, c) && InPlace(objects, keys, n + 1, c) && OthersKept(objects, keys, c)
  {
    forall i | 0 <= i < n + 1
      ensures Target(plan, keys[i]) != keys[n]
    {
      TargetIsFree(objects, plan, keys, i);
    }
  }

  lemma StrangersAreTargets<V>(objects: Objects<V>, plan: Plan, keys: seq<string>, n: nat, now: Objects<V>,
                               next: Objects<V>)
    requires n < |keys| && NoStrangers(objects, plan, keys, n, now)
    requires forall k | k in next :: k in now || k == Target(plan, keys[n])
    ensures NoStrangers(objects, plan, keys, n + 1, next)
  {
    forall k | k in next && k !in objects
      ensures IsTarget(plan, keys, n + 1, k)
    {
      TargetGrows(plan, keys, n, k);
    }
  }

  lemma SourcesStayGone<V>(plan: Plan, keys: seq<string>, rounds: seq<Round>, n: nat, now: Objects<V>, next: Objects<V>)
    requires n < |keys| == |rounds| && SourcesGone(plan, keys, rounds, n, now)
    requires forall k | k in next :: k in now || k == Target(plan, keys[n])
    requires rounds[n].removed ==> keys[n] !in next
    ensures SourcesGone(plan, keys, rounds, n + 1, next)
  {
    forall i | 0 <= i < n + 1 && rounds[i].removed && keys[i] in next
      ensures IsTarget(plan, keys, n + 1, keys[i])
    {
      TargetGrows(plan, keys, n, keys[i]);
    }
  }

  lemma RoundReaches<V>(objects: Objects<V>, plan: Plan, keys: seq<string>, rounds: seq<Round>, n: nat, now: Objects<V>)
    requires NonClobbering(objects, plan, keys) && n < |keys| == |rounds|
    requires Reached(objects, plan, keys, rounds, n, now) && rounds[n].copied
    ensures var c := Copied(now, plan, keys[n], rounds[n]);
      && !c.aborted
      && AtTargets(objects, plan, keys, n + 1, c.objects) && InPlace(objects, keys, n, c.objects)
      && OthersKept(objects, keys, c.objects) && NoStrangers(objects, plan, keys, n + 1, c.objects)
      && Reached(objects, plan, keys, rounds, n + 1, Removed(c, keys[n], rounds[n]).objects)
  {
    CopyKeeps(objects, plan, keys, n, now);
    var c := Copied(now, plan, keys[n], rounds[n]).objects;
    RemoveKeeps(objects, plan, keys, n, c);
    var next := if rounds[n].removed then c - {keys[n]} else c;
    StrangersAreTargets(objects, plan, keys, n, now, c);
    StrangersAreTargets(objects, plan, keys, n, now, next);
    SourcesStayGone(plan, keys, rounds, n, now, next);
    if !rounds[n].removed {
      InPlaceLater(objects, keys, n, c);
    }
  }

  lemma InPlaceLater<V>(objects: Objects<V>, keys: seq<string>, n: nat, now: Objects<V>)
    requires InPlace(objects, keys, n, now)
    ensures InPlace(objects, keys, n + 1, now)
  {
  }

  lemma ReachedLosesNothing<V>(objects: Objects<V>, plan: Plan, keys: seq<string>, n: nat, m: nat, now: Objects<V>)
    requires m <= n <= |keys| && AtTargets(objects, plan, keys, n, now) && InPlace(objects, keys, m, now)
    requires OthersKept(objects, keys, now) && NoStrangers(objects, plan, keys, n, now)
    ensures NothingLost(objects, plan, keys, now)
  {
    forall k | k in keys && k in objects
      ensures Holds(now, k, objects[k]) || Holds(now, Target(plan, k), objects[k])
    {
      var i :| 0 <= i < |keys| && keys[i] == k;
      if i >= n {
        assert InPlace(objects, keys, m, now);
      }
    }
    forall k | k in now && k !in objects
      ensures exists k' :: k' in keys && k == Target(plan, k')
    {
      var i :| 0 <= i < n && k == Target(plan, keys[i]);
      assert keys[i] in keys;
    }
  }

  lemma ReachedAtFirst<V>(objects: Objects<V>, plan: Plan, keys: seq<string>, rounds: seq<Round>)
    requires NonClobbering(objects, plan, keys) && |keys| == |rounds|
    ensures Reached(objects, plan, keys, rounds, 0, objects)
  {
    forall i | 0 <= i < |keys|
      ensures keys[i] in objects
    {
      assert keys[i] in keys;
    }
  }

  lemma OneMoreReached<V>(objects: Objects<V>, plan: Plan, keys: seq<string>, rounds: seq<Round>, n: nat)
    requires NonClobbering(objects, plan, keys) && n < |keys| == |rounds|
    requires var p := After(objects, plan, keys, rounds, n);
      !p.aborted && rounds[n].copied && Reached(objects, plan, keys, rounds, n, p.objects)
    ensures var q := After(objects, plan, keys, rounds, n + 1);
      !q.aborted && Reached(objects, plan, keys, rounds, n + 1, q.objects)
  {
    RoundReaches(objects, plan, keys, rounds, n, After(objects, plan, keys, rounds, n).objects);
  }

  lemma {:induction false} ReachedWhileRunning<V>(objects: Objects<V>, plan: Plan, keys: seq<string>,
                                                  rounds: seq<Round>, n: nat)
    requires NonClobbering(objects, plan, keys) && n <= |keys| == |rounds|
    requires !After(objects, plan, keys, rounds, n).aborted
    ensures Reached(objects, plan, keys, rounds, n, After(objects, plan, keys, rounds, n).objects)
  {
    if n == 0 {
      ReachedAtFirst(objects, plan, keys, rounds);
    } else {
      ReachedWhileRunning(objects, plan, keys, rounds, n - 1);
      OneMoreReached(objects, plan, keys, rounds, n - 1);
    }
  }

  /** A key whose round is still to come is an object: rounds before it remove other keys only. */
  lemma {:induction false} StillThere<V>(objects: Objects<V>, plan: Plan, keys: seq<string>, rounds: seq<Round>, n: nat,
                                         j: nat)
    requires IsListing(keys, objects, plan.from) && n <= j < |keys| == |rounds|
    ensures keys[j] in After(objects, plan, keys, rounds, n).objects
  {
    if n == 0 {
      assert keys[j] in keys;
    } else {
      StillThere(objects, plan, keys, rounds, n - 1, j);
      assert keys[n - 1] != keys[j];
    }
  }

  /** Only a failed copy stops the loop. */
  lemma {:induction false} NeverAborts<V>(objects: Objects<V>, plan: Plan, keys: seq<string>, rounds: seq<Round>,
                                          n: nat)
    requires IsListing(keys, objects, plan.from) && n <= |keys| == |rounds|
    requires forall i | 0 <= i < n :: rounds[i].copied
    ensures !After(objects, plan, keys, rounds, n).aborted
  {
    if n > 0 {
      NeverAborts(objects, plan, keys, rounds, n - 1);
      StillThere(objects, plan, keys, rounds, n - 1, n - 1);
    }
  }

  /** The loop has gone through m of the first n rounds, and then stopped if m is less. */
  lemma {:induction false} LastRound<V>(objects: Objects<V>, plan: Plan, keys: seq<string>, rounds: seq<Round>, n: nat)
    returns (m: nat)
    requires n <= |keys| == |rounds|
    ensures m <= n && !After(objects, plan, keys, rounds, m).aborted
    ensures After(objects, plan, keys, rounds, m).objects == After(objects, plan, keys, rounds, n).objects
    ensures !After(objects, plan, keys, rounds, n).aborted ==> m == n
  {
    if !After(objects, plan, keys, rounds, n).aborted {
      m := n;
    } else {
      m := LastRound(objects, plan, keys, rounds, n - 1);
    }
  }

  /** At every moment of the loop, failed copies and removes included, each object's content is under its old or its
      new key, and no other object has changed. */
  lemma NeverLosesAnObject<V>(objects: Objects<V>, plan: Plan, keys: seq<string>, rounds: seq<Round>, n: nat)
    requires NonClobbering(objects, plan, keys) && n <= |keys| == |rounds|
    ensures NothingLost(objects, plan, keys, After(objects, plan, keys, rounds, n).objects)
    ensures n < |keys| ==> NothingLost(objects, plan, keys, Between(objects, plan, keys, rounds, n).objects)
  {
    var p := After(objects, plan, keys, rounds, n);
    var m := LastRound(objects, plan, keys, rounds, n);
    ReachedWhileRunning(objects, plan, keys, rounds, m);
    ReachedLosesNothing(objects, plan, keys, m, m, p.objects);
    if n < |keys| && !p.aborted && rounds[n].copied {
      RoundReaches(objects, plan, keys, rounds, n, p.objects);
      ReachedLosesNothing(objects, plan, keys, n + 1, n, Between(objects, plan, keys, rounds, n).objects);
    }
  }

  // ---- exactly when nothing is lost ----

  ghost predicate DistinctContents<V>(objects: Objects<V>) {
    forall k1, k2 | k1 in objects && k2 in objects && objects[k1] == objects[k2] :: k1 == k2
  }

  ghost predicate AllWork(rounds: seq<Round>) {
    forall i | 0 <= i < |rounds| :: rounds[i] == Round(true, true)
  }

  /** The value is under this key or nowhere. */
  ghost predicate OnlyAt<V>(now: Objects<V>, w: V, key: string) {
    forall k | k in now && now[k] == w :: k == key
  }

  ghost predicate Nowhere<V>(now: Objects<V>, w: V) {
    forall k | k in now :: now[k] != w
  }

  lemma WorkedOnlyAt<V>(now: Objects<V>, plan: Plan, key: string, w: V, t: string)
    requires key != t && OnlyAt(now, w, t)
    ensures OnlyAt(Removed(Copied(now, plan, key, Round(true, true)), key, Round(true, true)).objects, w, t)
    ensures Target(plan, key) == t && key in now ==>
      Nowhere(Removed(Copied(now, plan, key, Round(true, true)), key, Round(true, true)).objects, w)
  {
  }

  lemma WorkedNowhere<V>(now: Objects<V>, plan: Plan, key: string, w: V)
    requires Nowhere(now, w)
    ensures Nowhere(Removed(Copied(now, plan, key, Round(true, true)), key, Round(true, true)).objects, w)
  {
  }

  /** Until the round that hits it, an object that no earlier round copies has its content at its own key only. */
  lemma {:induction false} OnlyAtBefore<V>(objects: Objects<V>, plan: Plan, keys: seq<string>, rounds: seq<Round>,
                                           n: nat, t: string)
    requires IsListing(keys, objects, plan.from) && n <= |keys| == |rounds| && AllWork(rounds)
    requires DistinctContents(objects) && t in objects && t !in keys[..n]
    ensures OnlyAt(After(objects, plan, keys, rounds, n).objects, objects[t], t)
  {
    if n > 0 {
      assert forall k | k in keys[..n - 1] :: k in keys[..n];
      OnlyAtBefore(objects, plan, keys, rounds, n - 1, t);
      NeverAborts(objects, plan, keys, rounds, n - 1);
      assert keys[n - 1] == keys[..n][n - 1];
      WorkedOnlyAt(After(objects, plan, keys, rounds, n - 1).objects, plan, keys[n - 1], objects[t], t);
    }
  }

  lemma {:induction false} NowhereAfter<V>(objects: Objects<V>, plan: Plan, keys: seq<string>, rounds: seq<Round>,
                                           i: nat, n: nat)
    requires IsListing(keys, objects, plan.from) && i < n <= |keys| == |rounds| && AllWork(rounds)
    requires DistinctContents(objects) && Target(plan, keys[i]) in objects && Target(plan, keys[i]) !in keys[..i + 1]
    ensures Nowhere(After(objects, plan, keys, rounds, n).objects, objects[Target(plan, keys[i])])
  {
    var t := Target(plan, keys[i]);
    NeverAborts(objects, plan, keys, rounds, n - 1);
    if i == n - 1 {
      assert forall k | k in keys[..i] :: k in keys[..i + 1];
      OnlyAtBefore(objects, plan, keys, rounds, i, t);
      StillThere(objects, plan, keys, rounds, i, i);
      assert keys[i] == keys[..i + 1][i];
      WorkedOnlyAt(After(objects, plan, keys, rounds, i).objects, plan, keys[i], objects[t], t);
    } else {
      NowhereAfter(objects, plan, keys, rounds, i, n - 1);
      WorkedNowhere(After(objects, plan, keys, rounds, n - 1).objects, plan, keys[n - 1], objects[t]);
    }
  }

  /** A copy that lands on an unlisted object, or on a listed one whose round is to come. */
  predicate Clobbers<V>(objects: Objects<V>, plan: Plan, keys: seq<string>, i: nat) {
    i < |keys| && Target(plan, keys[i]) in objects && Target(plan, keys[i]) !in keys[..i + 1]
  }

  lemma ClobberedIsLost<V>(objects: Objects<V>, plan: Plan, keys: seq<string>, rounds: seq<Round>, i: nat)
    requires IsListing(keys, objects, plan.from) && |keys| == |rounds| && AllWork(rounds) && DistinctContents(objects)
    requires Clobbers(objects, plan, keys, i)
    ensures !NothingLost(objects, plan, keys, After(objects, plan, keys, rounds, |keys|).objects)
  {
    var t := Target(plan, keys[i]);
    var now := After(objects, plan, keys, rounds, |keys|).objects;
    NowhereAfter(objects, plan, keys, rounds, i, |keys|);
    assert !Holds(now, t, objects[t]) && !Holds(now, Target(plan, t), objects[t]);
  }

  /** Between different prefixes a plan is safe unless some copy clobbers. */
  lemma SomeClobber<V>(objects: Objects<V>, plan: Plan, keys: seq<string>) returns (i: nat)
    requires plan.from != plan.to && IsListing(keys, objects, plan.from) && !NonClobbering(objects, plan, keys)
    ensures Clobbers(objects, plan, keys, i)
  {
    if k :| k in keys && Target(plan, k) in objects && Target(plan, k) !in keys {
      i :| 0 <= i < |keys| && keys[i] == k;
      assert forall x | x in keys[..i + 1] :: x in keys;
    } else {
      var j;
      i, j :| 0 <= i < j < |keys| && Target(plan, keys[i]) == keys[j];
      assert keys[j] in keys;
      assert forall m | 0 <= m < i + 1 :: keys[..i + 1][m] == keys[m] != keys[j];
    }
  }

  lemma EqualPrefixesLose<V>(objects: Objects<V>, plan: Plan, keys: seq<string>, rounds: seq<Round>)
    requires plan.from == plan.to && IsListing(keys, objects, plan.from) && keys != []
    requires |keys| == |rounds| && AllWork(rounds)
    ensures !NothingLost(objects, plan, keys, After(objects, plan, keys, rounds, |keys|).objects)
  {
    EqualPrefixesDestroy(objects, plan, keys, rounds, |keys|);
    var k := keys[0];
    assert k in keys;
    TargetOf(plan, k);
    PrefixSplit(k, plan.from);
  }

  /** When every call works, the listing is not empty and no two objects have the same content, the loop loses nothing
      if and only if the prefixes differ and no copy lands on an object still needed. */
  lemma NothingLostIff<V>(objects: Objects<V>, plan: Plan, keys: seq<string>, rounds: seq<Round>)
    requires IsListing(keys, objects, plan.from) && keys != [] && |keys| == |rounds| && AllWork(rounds)
    requires DistinctContents(objects)
    ensures NothingLost(objects, plan, keys, After(objects, plan, keys, rounds, |keys|).objects)
            <==> NonClobbering(objects, plan, keys)
  {
    if NonClobbering(objects, plan, keys) {
      NeverLosesAnObject(objects, plan, keys, rounds, |keys|);
    } else if plan.from == plan.to {
      EqualPrefixesLose(objects, plan, keys, rounds);
    } else {
      var i := SomeClobber(objects, plan, keys);
      ClobberedIsLost(objects, plan, keys, rounds, i);
    }
  }

  // ---- the loop is one simultaneous rename ----

  lemma TargetsInjective(plan: Plan)
    ensures forall k1, k2 | HasPrefix(k1, plan.from) && HasPrefix(k2, plan.from) && Target(plan, k1) == Target(plan, k2)
              :: k1 == k2
  {
    forall k1, k2 | HasPrefix(k1, plan.from) && HasPrefix(k2, plan.from) && Target(plan, k1) == Target(plan, k2)
      ensures k1 == k2
    {
      TargetInjective(plan, k1, k2);
    }
  }

  /** All keys under the old prefix moved at once; the rest stays. */
  ghost function Renamed<V>(objects: Objects<V>, plan: Plan): Objects<V> {
    TargetsInjective(plan);
    (map k | k in objects && !HasPrefix(k, plan.from) :: objects[k])
    + (map k | k in objects && HasPrefix(k, plan.from) :: Target(plan, k) := objects[k])
  }

  /** Without failures the in-order loop is the simultaneous rename. */
  lemma LoopIsSimultaneous<V>(objects: Objects<V>, plan: Plan, keys: seq<string>, rounds: seq<Round>)
    requires NonClobbering(objects, plan, keys) && |keys| == |rounds| && AllWork(rounds)
    ensures After(objects, plan, keys, rounds, |keys|) == Progress(Renamed(objects, plan), false)
  {
    NeverAborts(objects, plan, keys, rounds, |keys|);
    ReachedWhileRunning(objects, plan, keys, rounds, |keys|);
    ReachedIsRenamed(objects, plan, keys, rounds, After(objects, plan, keys, rounds, |keys|).objects);
  }

  lemma ReachedIsRenamed<V>(objects: Objects<V>, plan: Plan, keys: seq<string>, rounds: seq<Round>, now: Objects<V>)
    requires NonClobbering(objects, plan, keys) && |keys| == |rounds|
    requires forall i | 0 <= i < |rounds| :: rounds[i].removed
    requires Reached(objects, plan, keys, rounds, |keys|, now)
    ensures now == Renamed(objects, plan)
  {
    var all := Renamed(objects, plan);
    var n := |keys|;
    forall k | k in now
      ensures Holds(all, k, now[k])
    {
      if IsTarget(plan, keys, n, k) {
        var i :| 0 <= i < n && k == Target(plan, keys[i]);
        assert keys[i] in keys;
        MovedAt(objects, plan, keys[i]);
      } else {
        NotSource(objects, plan, keys, rounds, k, now);
        StayedAt(objects, plan, keys, k);
      }
    }
    forall k | k in all
      ensures k in now
    {
      var k' := OriginOf(objects, plan, k);
      if k' in keys {
        var i :| 0 <= i < n && keys[i] == k';
      }
    }
  }

  lemma NotSource<V>(objects: Objects<V>, plan: Plan, keys: seq<string>, rounds: seq<Round>, k: string, now: Objects<V>)
    requires |keys| == |rounds| && forall i | 0 <= i < |rounds| :: rounds[i].removed
    requires SourcesGone(plan, keys, rounds, |keys|, now) && NoStrangers(objects, plan, keys, |keys|, now)
    requires k in now && !IsTarget(plan, keys, |keys|, k)
    ensures k in objects && k !in keys
  {
    forall i | 0 <= i < |keys|
      ensures keys[i] != k
    {
      assert rounds[i].removed;
    }
  }

  lemma MovedAt<V>(objects: Objects<V>, plan: Plan, k: string)
    requires k in objects && HasPrefix(k, plan.from)
    ensures Holds(Renamed(objects, plan), Target(plan, k), objects[k])
  {
    TargetsInjective(plan);
  }

  /** A key outside the old prefix that no renamed key lands on. */
  lemma StayedAt<V>(objects: Objects<V>, plan: Plan, keys: seq<string>, k: string)
    requires IsListing(keys, objects, plan.from) && k in objects && k !in keys && !IsTarget(plan, keys, |keys|, k)
    ensures Holds(Renamed(objects, plan), k, objects[k])
  {
    TargetsInjective(plan);
    forall k' | k' in objects && HasPrefix(k', plan.from)
      ensures Target(plan, k') != k
    {
      var i :| 0 <= i < |keys| && keys[i] == k';
    }
  }

  lemma OriginOf<V>(objects: Objects<V>, plan: Plan, k: string) returns (k': string)
    requires k in Renamed(objects, plan)
    ensures k' in objects && k == if HasPrefix(k', plan.from) then Target(plan, k') else k'
  {
    TargetsInjective(plan);
    if from :| from in objects && HasPrefix(from, plan.from) && Target(plan, from) == k {
      k' := from;
    } else {
      k' := k;
    }
  }

  // ---- renaming back ----

  predicate Disjoint(plan: Plan) {
    !HasPrefix(plan.from, plan.to) && !HasPrefix(plan.to, plan.from)
  }

  function Inverse(plan: Plan): Plan {
    Plan(plan.to, plan.from)
  }

  lemma PrefixesOfOneKey(key: string, p: string, q: string)
    requires HasPrefix(key, p) && HasPrefix(key, q)
    ensures HasPrefix(p, q) || HasPrefix(q, p)
  {
    if |p| <= |q| {
      assert q[..|p|] == key[..|q|][..|p|] == p;
    } else {
      assert p[..|q|] == key[..|p|][..|q|] == q;
    }
  }

  lemma DisjointKeys(plan: Plan, key: string)
    requires Disjoint(plan) && HasPrefix(key, plan.from)
    ensures !HasPrefix(key, plan.to)
  {
    if HasPrefix(key, plan.to) {
      PrefixesOfOneKey(key, plan.from, plan.to);
    }
  }

  ghost predicate Unused<V>(objects: Objects<V>, prefix: string) {
    forall k | k in objects :: !HasPrefix(k, prefix)
  }

  /** Between prefixes neither of which extends the other, an unused new prefix is enough, in any listing order. */
  lemma UnusedPrefixIsSafe<V>(objects: Objects<V>, plan: Plan, keys: seq<string>)
    requires Disjoint(plan) && Unused(objects, plan.to) && IsListing(keys, objects, plan.from)
    ensures NonClobbering(objects, plan, keys)
  {
    forall k | k in keys
      ensures Target(plan, k) !in objects && Target(plan, k) !in keys
    {
      TargetOf(plan, k);
    }
    forall i, j | 0 <= i < j < |keys|
      ensures Target(plan, keys[i]) != keys[j]
    {
      assert keys[i] in keys && keys[j] in keys;
    }
    assert HasPrefix(plan.from, plan.from);
  }

  lemma TargetBack(plan: Plan, k: string)
    requires HasPrefix(k, plan.from)
    ensures Target(Inverse(plan), Target(plan, k)) == k
  {
    TargetOf(plan, k);
    TargetOf(Inverse(plan), Target(plan, k));
    PrefixOfConcat(plan.to, k[|plan.from|..]);
    PrefixSplit(k, plan.from);
  }

  /** What a simultaneous rename holds under a key. */
  lemma RenamedAt<V>(objects: Objects<V>, plan: Plan, k: string)
    ensures k in objects && HasPrefix(k, plan.from) ==> Holds(Renamed(objects, plan), Target(plan, k), objects[k])
    ensures Disjoint(plan) && k in objects && !HasPrefix(k, plan.from) && !HasPrefix(k, plan.to)
            ==> Holds(Renamed(objects, plan), k, objects[k])
    ensures k in Renamed(objects, plan) ==> (k in objects && !HasPrefix(k, plan.from)) || HasPrefix(k, plan.to)
  {
    TargetsInjective(plan);
    forall k' | k' in objects && HasPrefix(k', plan.from)
      ensures HasPrefix(Target(plan, k'), plan.to)
    {
      TargetOf(plan, k');
    }
  }

  /** Renaming there and back restores the store exactly when nothing was under the new prefix before: anything
      there would be carried back too. */
  lemma RenameBackIff<V>(objects: Objects<V>, plan: Plan)
    requires Disjoint(plan)
    ensures Renamed(Renamed(objects, plan), Inverse(plan)) == objects <==> Unused(objects, plan.to)
  {
    var there := Renamed(objects, plan);
    var back := Renamed(there, Inverse(plan));
    if k :| k in objects && HasPrefix(k, plan.to) {
      RenamedAt(there, Inverse(plan), k);
      DisjointKeys(Inverse(plan), k);
    } else {
      forall k | k in objects
        ensures Holds(back, k, objects[k])
      {
        RenamedAt(objects, plan, k);
        if HasPrefix(k, plan.from) {
          TargetOf(plan, k);
          TargetBack(plan, k);
          RenamedAt(there, Inverse(plan), Target(plan, k));
        } else {
          RenamedAt(there, Inverse(plan), k);
        }
      }
      forall k | k in back
        ensures k in objects
      {
        OriginBack(objects, plan, k);
      }
    }
  }

  lemma OriginBack<V>(objects: Objects<V>, plan: Plan, k: string)
    requires Disjoint(plan) && Unused(objects, plan.to) && k in Renamed(Renamed(objects, plan), Inverse(plan))
    ensures k in objects
  {
    var there := Renamed(objects, plan);
    TargetsInjective(plan);
    TargetsInjective(Inverse(plan));
    if k' :| k' in there && HasPrefix(k', plan.to) && Target(Inverse(plan), k') == k {
      var k0 :| k0 in objects && HasPrefix(k0, plan.from) && Target(plan, k0) == k';
      TargetBack(plan, k0);
    } else {
      RenamedAt(objects, plan, k);
    }
  }

  lemma LoopOverUnused<V>(objects: Objects<V>, plan: Plan, keys: seq<string>, rounds: seq<Round>)
    requires Disjoint(plan) && Unused(objects, plan.to) && IsListing(keys, objects, plan.from)
    requires |keys| == |rounds| && AllWork(rounds)
    ensures After(objects, plan, keys, rounds, |keys|).objects == Renamed(objects, plan)
  {
    UnusedPrefixIsSafe(objects, plan, keys);
    LoopIsSimultaneous(objects, plan, keys, rounds);
  }

  lemma OldPrefixIsUnused<V>(objects: Objects<V>, plan: Plan)
    requires Disjoint(plan)
    ensures Unused(Renamed(objects, plan), plan.from)
  {
    forall k | k in Renamed(objects, plan)
      ensures !HasPrefix(k, plan.from)
    {
      RenamedAt(objects, plan, k);
      if HasPrefix(k, plan.to) {
        DisjointKeys(Inverse(plan), k);
      }
    }
  }

  /** Two runs of the loop: there over one listing, back over any listing of the result. */
  lemma LoopThereAndBack<V>(objects: Objects<V>, plan: Plan, keys: seq<string>, rounds: seq<Round>,
                            keys': seq<string>, rounds': seq<Round>)
    requires Disjoint(plan) && Unused(objects, plan.to) && IsListing(keys, objects, plan.from)
    requires |keys| == |rounds| && |keys'| == |rounds'| && AllWork(rounds) && AllWork(rounds')
    requires var there := After(objects, plan, keys, rounds, |keys|).objects; IsListing(keys', there, plan.to)
    ensures var there := After(objects, plan, keys, rounds, |keys|).objects;
      After(there, Inverse(plan), keys', rounds', |keys'|).objects == objects
  {
    LoopOverUnused(objects, plan, keys, rounds);
    OldPrefixIsUnused(objects, plan);
    LoopOverUnused(Renamed(objects, plan), Inverse(plan), keys', rounds');
    RenameBackIff(objects, plan);
  }

  // ---- why the conditions are there ----

  /** With equal prefixes every object is copied onto itself and then removed: nothing under the prefix is left. */
  lemma {:induction false} EqualPrefixesDestroy<V>(objects: Objects<V>, plan: Plan, keys: seq<string>,
                                                   rounds: seq<Round>, n: nat)
    requires plan.from == plan.to && IsListing(keys, objects, plan.from) && n <= |keys| == |rounds| && AllWork(rounds)
    ensures After(objects, plan, keys, rounds, n)
         == Progress(objects - (set i | 0 <= i < n :: keys[i]), false)
  {
    if n > 0 {
      EqualPrefixesDestroy(objects, plan, keys, rounds, n - 1);
      var key := keys[n - 1];
      assert key in keys;
      TargetOf(plan, key);
      PrefixSplit(key, plan.from);
      var gone := set i | 0 <= i < n - 1 :: keys[i];
      assert (set i | 0 <= i < n :: keys[i]) == gone + {key};
      assert key in objects - gone;
    }
  }

  /** Moving a folder into itself can hit a key that is listed later; its content is lost for good. */
  lemma LaterKeyCanBeLost()
    ensures var objects := map["a/x" := 1, "a/z/x" := 2];
            var plan, keys := Plan("a/", "a/z/"), ["a/x", "a/z/x"];
      IsListing(keys, objects, "a/")
      && After(objects, plan, keys, [Round(true, true), Round(true, true)], 2) == Progress(map["a/z/z/x" := 1], false)
  {
    var objects := map["a/x" := 1, "a/z/x" := 2];
    var plan, keys := Plan("a/", "a/z/"), ["a/x", "a/z/x"];
    var rounds := [Round(true, true), Round(true, true)];
    assert keys[0] in keys && keys[1] in keys;
    NestedTargets();
    WorkedRound(objects, plan, keys, rounds, 0, objects);
    assert objects["a/z/x" := 1] - {"a/x"} == map["a/z/x" := 1];
    WorkedRound(objects, plan, keys, rounds, 1, map["a/z/x" := 1]);
    assert map["a/z/x" := 1]["a/z/z/x" := 1] - {"a/z/x"} == map["a/z/z/x" := 1];
  }

  lemma NestedTargets()
    ensures var plan := Plan("a/", "a/z/");
      && HasPrefix("a/x", "a/") && Target(plan, "a/x") == "a/z/x"
      && HasPrefix("a/z/x", "a/") && Target(plan, "a/z/x") == "a/z/z/x"
  {
    var plan := Plan("a/", "a/z/");
    PrefixOfConcat("a/", "x");
    PrefixOfConcat("a/", "z/x");
    assert "a/x" == "a/" + "x" && "a/z/x" == "a/" + "z/x";
    TargetOf(plan, "a/x");
    TargetOf(plan, "a/z/x");
  }

  lemma WorkedRound<V>(objects: Objects<V>, plan: Plan, keys: seq<string>, rounds: seq<Round>, n: nat, now: Objects<V>)
    requires n < |keys| == |rounds| && rounds[n] == Round(true, true) && keys[n] in now
    requires After(objects, plan, keys, rounds, n) == Progress(now, false)
    ensures After(objects, plan, keys, rounds, n + 1)
         == Progress(now[Target(plan, keys[n]) := now[keys[n]]] - {keys[n]}, false)
  {
  }
}
