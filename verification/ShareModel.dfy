/** The user list of a share. */
module ShareUsers {
  import opened Bytes

  function Without(s: seq<string>, target: string): seq<string> {
    if |s| == 0 then []
    else Without(s[..|s| - 1], target) + if s[|s| - 1] == target then [] else [s[|s| - 1]]
  }

  function With(s: seq<string>, user: string): seq<string> {
    if user in s then s else s + [user]
  }

  /** Drops each element equal to the one before it. */
  function Compact(s: seq<string>): (r: seq<string>)
    ensures forall x :: x in r <==> x in s
    ensures |s| > 0 ==> |r| > 0 && r[|r| - 1] == s[|s| - 1]
    ensures forall i | 0 < i < |r| :: r[i] != r[i - 1]
  {
    if |s| < 2 then s
    else
      var r := Compact(s[..|s| - 1]);
      assert s == s[..|s| - 1] + [s[|s| - 1]];
      if s[|s| - 1] == s[|s| - 2] then r else r + [s[|s| - 1]]
  }

  /** The filter that writes into the array it is still reading: the first `kept` cells become the list without
      the target, in order. */
  method RemoveInPlace(users: array<string>, length: nat, target: string) returns (kept: nat)
    requires length <= users.Length
    modifies users
    ensures kept <= length && users[..kept] == Without(old(users[..length]), target)
    ensures users[length..] == old(users[length..])
  {
    kept := 0;
    ghost var was := users[..];
    for i := 0 to length
      invariant kept <= i && |was| == users.Length
      invariant users[..kept] == Without(was[..i], target)
      invariant forall j | i <= j < users.Length :: users[j] == was[j]
    {
      var u := users[i];
      ghost var front := users[..kept];
      assert was[..i + 1] == was[..i] + [u] && was[..i + 1][..i] == was[..i];
      if u != target {
        users[kept] := u;
        kept := kept + 1;
        assert users[..kept] == front + [u];
      }
    }
    assert users[length..] == was[length..];
  }

  /** Filtering keeps everyone else as often as before and drops the target entirely. */
  lemma {:induction false} WithoutCounts(s: seq<string>, target: string)
    ensures multiset(Without(s, target)) == multiset(s)[target := 0]
  {
    if |s| > 0 {
      WithoutCounts(s[..|s| - 1], target);
      assert s == s[..|s| - 1] + [s[|s| - 1]];
    }
  }

  lemma {:induction false} WithoutAbsent(s: seq<string>, target: string)
    requires target !in s
    ensures Without(s, target) == s
  {
    if |s| > 0 {
      WithoutAbsent(s[..|s| - 1], target);
      assert s == s[..|s| - 1] + [s[|s| - 1]];
    }
  }

  /** Adding keeps a duplicate-free list duplicate-free; removing an absent user that was just added undoes it. */
  lemma AddThenRemove(s: seq<string>, user: string)
    ensures Distinct(s) ==> Distinct(With(s, user))
    ensures user !in s ==> Without(With(s, user), user) == s
  {
    if user !in s {
      WithoutAbsent(s, user);
      assert (s + [user])[..|s|] == s;
    }
  }

  lemma {:induction false} WithoutKeepsNoDuplicates(s: seq<string>, target: string)
    requires Distinct(s)
    ensures Distinct(Without(s, target))
  {
    if |s| > 0 {
      var front, x := s[..|s| - 1], s[|s| - 1];
      WithoutKeepsNoDuplicates(front, target);
      WithoutCounts(front, target);
      assert x in Without(front, target) ==> multiset(Without(front, target))[x] > 0;
      assert x in front <==> multiset(front)[x] > 0;
    }
  }

  /** Positions i and k hold the same user and j, between them, another. */
  predicate Split(s: seq<string>, i: nat, j: nat, k: nat) {
    i < j < k < |s| && s[i] == s[k] && s[j] != s[i]
  }

  /** Equal users stand together. */
  ghost predicate Grouped(s: seq<string>) {
    forall i: nat, j: nat, k: nat :: !Split(s, i, j, k)
  }

  /** Compacting removes every duplicate exactly when equal users stand together in the request. */
  lemma {:induction false} CompactRemovesDuplicatesIff(s: seq<string>)
    ensures Distinct(Compact(s)) <==> Grouped(s)
  {
    if |s| >= 2 {
      var front, x := s[..|s| - 1], s[|s| - 1];
      CompactRemovesDuplicatesIff(front);
      if x == s[|s| - 2] {
        RepeatGrouped(s);
      } else {
        assert s == front + [x];
        CompactFresh(front, x, Compact(front));
      }
    }
  }

  lemma RepeatGrouped(s: seq<string>)
    requires |s| >= 2 && s[|s| - 1] == s[|s| - 2]
    ensures Grouped(s[..|s| - 1]) <==> Grouped(s)
  {
    var front := s[..|s| - 1];
    var n := |front|;
    if i: nat, j: nat, k: nat :| Split(front, i, j, k) {
      assert Split(s, i, j, k);
    } else if i: nat, j: nat, k: nat :| Split(s, i, j, k) {
      assert Split(front, i, j, if k == n then n - 1 else k);
    }
  }

  lemma CompactFresh(front: seq<string>, x: string, r: seq<string>)
    requires |front| > 0 && x != front[|front| - 1]
    requires x in r <==> x in front
    requires Distinct(r) <==> Grouped(front)
    ensures Distinct(r + [x]) <==> Grouped(front + [x])
  {
    AppendDuplicates(r, x);
    if x in front {
      var i :| 0 <= i < |front| && front[i] == x;
      assert Split(front + [x], i, |front| - 1, |front|);
    } else {
      AppendGrouped(front, x);
    }
  }

  lemma AppendDuplicates(r: seq<string>, x: string)
    ensures Distinct(r + [x]) <==> Distinct(r) && x !in r
  {
    var s := r + [x];
    if Distinct(s) {
      forall i, j | 0 <= i < j < |r|
        ensures r[i] != r[j]
      {
        assert s[i] != s[j];
      }
      forall i | 0 <= i < |r|
        ensures r[i] != x
      {
        assert s[i] != s[|r|];
      }
    }
  }

  lemma AppendGrouped(front: seq<string>, x: string)
    requires x !in front
    ensures Grouped(front + [x]) <==> Grouped(front)
  {
    forall i: nat, j: nat, k: nat
      ensures Split(front, i, j, k) <==> Split(front + [x], i, j, k)
    {
      assert k == |front| && i < k ==> (front + [x])[i] in front;
    }
  }

  /** A request naming a user twice with another in between keeps the duplicate. */
  lemma CompactCanKeepDuplicates()
    ensures !Distinct(Compact(["a", "b", "a"]))
  {
    var s := ["a", "b", "a"];
    assert Split(s, 0, 1, 2);
    CompactRemovesDuplicatesIff(s);
  }
}

/** Share records and rows, and the pure parts of the share service. */
module ShareModel {
  import opened Bytes
  import opened Envelope
  import opened ShareUsers

  const MINUTE: int := 60 * SECOND
  const DAY: int := 24 * 60 * MINUTE
  const CACHE_DEFAULT_TTL: int := 10 * MINUTE
  const CACHE_MAX_TTL: int := 30 * MINUTE

  datatype Permissions = Permissions(allowAnonymous: bool, users: seq<string>)

  /** The fields fixed when a share is created. */
  datatype Base = Base(
    owner: string,
    objectKeys: seq<string>,
    createdAt: int,
    expireAt: Option<int>,
    allowDownload: bool,
    passwordHash: string)

  datatype Record = Record(shareId: string, base: Base, permissions: Permissions)

  datatype CreateRequest = CreateRequest(
    objectKeys: seq<string>,
    hasPassword: bool,
    passwordHash: string,
    expireDays: int,
    allowDownload: bool)

  function ShareKey(id: string): string {
    "shares:v1:" + id
  }

  lemma ShareKeyInjective(id1: string, id2: string)
    requires ShareKey(id1) == ShareKey(id2)
    ensures id1 == id2
  {
    assert ShareKey(id1)[10..] == id1 && ShareKey(id2)[10..] == id2;
  }

  predicate IsExpired(now: int, expireAt: Option<int>) {
    expireAt.Some? && now > expireAt.value
  }

  function ExpireAt(req: CreateRequest, now: int): Option<int> {
    if req.expireDays > 0 then Some(now + req.expireDays * DAY) else None
  }

  function NewRecord(user: string, id: string, req: CreateRequest, now: int): Record {
    Record(id,
      Base(user, req.objectKeys, now, ExpireAt(req, now), req.allowDownload, req.passwordHash),
      Permissions(!req.hasPassword, [user]))
  }

  /** The lifetime of the entry written at creation: what is left of the share's life, or 0, which means for ever. */
  function CreateTtl(expireAt: Option<int>, now: int): nat {
    if expireAt.Some? && expireAt.value > now then expireAt.value - now else 0
  }

  function TtlFromExpire(expireAt: Option<int>, now: int): nat {
    match expireAt
    case None => CACHE_DEFAULT_TTL
    case Some(e) => if e <= now then 0 else if e - now > CACHE_MAX_TTL then CACHE_MAX_TTL else e - now
  }

  /** Whether an entry written with this lifetime still answers a read. */
  predicate Served(ttl: int, written: int, expireAt: Option<int>, now: int) {
    Alive(ttl, written, now) && !IsExpired(now, expireAt)
  }

  /** A lifetime of 0 goes exactly to shares already over; any other entry lives to within a second of the earlier of
      the share's own expiry and half an hour (ten minutes for a share without one), and no longer. */
  lemma CacheWindow(expireAt: Option<int>, written: int, now: int)
    requires written >= SECOND
    ensures var ttl := TtlFromExpire(expireAt, written);
            && (ttl == 0 <==> expireAt.Some? && expireAt.value <= written)
            && (expireAt.None? && now >= written + 600 * SECOND ==> Dead(ttl, written, now))
            && (expireAt.None? && now <= written + 599 * SECOND ==> Alive(ttl, written, now))
            && (ttl > 0 && expireAt.Some? && (now >= expireAt.value || now >= written + 1800 * SECOND)
                ==> Dead(ttl, written, now))
            && (ttl > 0 && expireAt.Some? && now + SECOND <= expireAt.value && now <= written + 1799 * SECOND
                ==> Alive(ttl, written, now))
    ensures now >= written && Served(TtlFromExpire(expireAt, written), written, expireAt, now)
            ==> now < written + 1800 * SECOND
  {
    ExpiryWindow(TtlFromExpire(expireAt, written), written, now);
  }

  /** Deleting only marks a row, so its primary key is never free again. */
  datatype Row = Row(record: Record, deleted: bool)

  datatype Cached = Cached(record: Record, ttl: nat, written: int, atCreation: bool)

  type Cache = map<string, Cached>

  /** Whether the cache still gives an entry out. */
  predicate InStore(kv: Cache, key: string, now: int) {
    key in kv && Alive(kv[key].ttl, kv[key].written, now)
  }

  datatype Change = Replace(allowAnonymous: bool, users: seq<string>) | Add(user: string) | Remove(user: string)

  function Apply(c: Change, p: Permissions): Permissions {
    match c
    case Replace(anonymous, users) => Permissions(anonymous, Compact(users))
    case Add(u) => p.(users := With(p.users, u))
    case Remove(u) => p.(users := Without(p.users, u))
  }

  /** What each edit asks for: replacing takes the flag and the users of the request, adding and removing concern one
      user and leave the flag and everyone else alone. */
  lemma EditsAsAsked(c: Change, p: Permissions)
    ensures var q := Apply(c, p);
      match c
      case Replace(anonymous, users) => q.allowAnonymous == anonymous && forall x :: x in q.users <==> x in users
      case Add(u) => && q.allowAnonymous == p.allowAnonymous && u in q.users
                     && multiset(q.users) == if u in p.users then multiset(p.users) else multiset(p.users)[u := 1]
      case Remove(u) => q.allowAnonymous == p.allowAnonymous && multiset(q.users) == multiset(p.users)[u := 0]
  {
    if c.Remove? {
      WithoutCounts(p.users, c.user);
    }
  }

  predicate WellNamed(c: Change) {
    match c
    case Replace(_, _) => true
    case Add(u) => u != ""
    case Remove(u) => u != ""
  }

  datatype Failure = Rejected | NotFound | Over | Forbidden | DbError

  datatype Answer = Found(record: Record) | Done | Failed(why: Failure)
}
