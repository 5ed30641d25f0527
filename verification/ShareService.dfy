/** The share service run one call at a time: the cache cannot be noticed. */
module ShareService {
  import opened Bytes
  import opened Envelope
  import opened ShareModel

  type Rows = map<string, Row>

  /** What reading the database alone answers. */
  function Load(rows: Rows, id: string, now: int): Answer {
    if id == "" then Failed(Rejected)
    else if id !in rows || rows[id].deleted then Failed(NotFound)
    else if IsExpired(now, rows[id].record.base.expireAt) then Failed(Over)
    else Found(rows[id].record)
  }

  /** How an edit by `user` ends, by the database alone. */
  function EditAnswer(rows: Rows, user: string, id: string, change: Change, now: int): Answer {
    if user == "" || id == "" || !WellNamed(change) then Failed(Rejected)
    else match Load(rows, id, now) {
      case Found(r) => if r.base.owner != user then Failed(Forbidden) else Done
      case other => other
    }
  }

  /** A share is found up to and including its expiry instant, unless it was deleted. */
  lemma LoadFindsIff(rows: Rows, id: string, now: int)
    ensures Load(rows, id, now).Found? <==>
      && id != "" && id in rows && !rows[id].deleted
      && (rows[id].record.base.expireAt.Some? ==> now <= rows[id].record.base.expireAt.value)
    ensures Load(rows, id, now).Found? ==> Load(rows, id, now).record == rows[id].record
  {
  }

  function Edited(rows: Rows, id: string, change: Change): Rows
    requires id in rows
  {
    var r := rows[id].record;
    rows[id := rows[id].(record := r.(permissions := Apply(change, r.permissions)))]
  }

  function DeleteAnswer(rows: Rows, user: string, id: string): Answer {
    if user == "" || id == "" then Failed(Rejected)
    else if id !in rows || rows[id].deleted then Failed(NotFound)
    else if rows[id].record.base.owner != user then Failed(Forbidden)
    else Done
  }

  /** The entry written from a database row. */
  function Backfilled(record: Record, now: int): Cached {
    Cached(record, TtlFromExpire(record.base.expireAt, now), now, false)
  }

  ghost predicate OnlyEntryChanged(kv: Cache, kv': Cache, id: string) {
    kv' - {ShareKey(id)} == kv - {ShareKey(id)}
  }

  ghost predicate CoherentAt(rows: Rows, kv: Cache, id: string) {
    ShareKey(id) in kv ==> id in rows && !rows[id].deleted && kv[ShareKey(id)].record == rows[id].record
  }

  /** The cache has the share and it is not over: the database is not asked. */
  predicate Hit(kv: Cache, id: string, now: int) {
    InStore(kv, ShareKey(id), now) && !IsExpired(now, kv[ShareKey(id)].record.base.expireAt)
  }

  /** Every cached share is a live row, permissions and all; no deleted share is cached. */
  ghost predicate Coherent(rows: Rows, kv: Cache) {
    && (forall id :: CoherentAt(rows, kv, id))
    && (forall id | id in rows :: rows[id].record.shareId == id)
  }

  /** After a change to one row and one entry of the same share, only that share can be out of step. */
  lemma OneShareChanged(rows: Rows, kv: Cache, rows': Rows, kv': Cache, id: string)
    requires Coherent(rows, kv)
    requires forall other | other != id :: other in rows' <==> other in rows
    requires forall other | other != id && other in rows :: rows'[other] == rows[other]
    requires forall key | key != ShareKey(id) :: key in kv' <==> key in kv
    requires forall key | key != ShareKey(id) && key in kv :: kv'[key] == kv[key]
    requires id in rows' ==> rows'[id].record.shareId == id
    ensures Coherent(rows', kv') <==> CoherentAt(rows', kv', id)
  {
    forall other | other != id
      ensures CoherentAt(rows', kv', other)
    {
      assert CoherentAt(rows, kv, other);
      if ShareKey(other) == ShareKey(id) {
        ShareKeyInjective(other, id);
      }
    }
  }

  /** A new share holds what was asked for: it runs out whole days after its creation, if ever, a password closes it
      to anonymous visitors, and its owner is its only user. */
  predicate AsRequested(r: Record, user: string, id: string, request: CreateRequest, now: int) {
    && r.shareId == id && r.base.owner == user && r.base.objectKeys == request.objectKeys
    && r.base.createdAt == now && r.base.allowDownload == request.allowDownload
    && r.base.passwordHash == request.passwordHash
    && (r.base.expireAt.Some? <==> request.expireDays > 0)
    && (r.base.expireAt.Some? ==> r.base.expireAt.value == now + request.expireDays * 86_400_000_000_000)
    && (r.permissions.allowAnonymous <==> !request.hasPassword) && r.permissions.users == [user]
  }

  class ShareService {
    var rows: Rows
    var kv: Cache

    ghost predicate Valid()
      reads this
    {
      Coherent(rows, kv)
    }

    constructor ()
      ensures rows == map[] && kv == map[] && Valid()
    {
      rows, kv := map[], map[];
    }

    method CacheShare(record: Record, ttl: nat, atCreation: bool, ok: bool, now: int)
      modifies this`kv
      ensures kv == if ok then old(kv)[ShareKey(record.shareId) := Cached(record, ttl, now, atCreation)] else old(kv)
    {
      if ok {
        kv := kv[ShareKey(record.shareId) := Cached(record, ttl, now, atCreation)];
      }
    }

    method DropCached(id: string, ok: bool)
      modifies this`kv
      ensures kv == if ok then old(kv) - {ShareKey(id)} else old(kv)
    {
      if ok {
        kv := kv - {ShareKey(id)};
      }
    }

    /** Reads through the cache. Its three cache calls may each fail, entries may have died or vanished, and the
        clock moves on: the answer is still the database's at one of the two clock readings. A found share is cached
        afterwards and an expired one is not, unless the calls for it fail. */
    method GetShareCached(id: string, getOk: bool, dropOk: bool, dbOk: bool, backfillOk: bool, t1: int, t2: int,
                          t3: int)
      returns (r: Answer)
      requires Valid() && t1 <= t2 <= t3
      modifies this`kv
      ensures Valid()
      ensures r == Load(rows, id, t1) || r == (if dbOk then Load(rows, id, t2) else Failed(DbError))
      ensures OnlyEntryChanged(old(kv), kv, id)
      ensures id != "" && getOk && Hit(old(kv), id, t1) ==> r == Found(old(kv)[ShareKey(id)].record) && kv == old(kv)
      ensures r.Found? && backfillOk ==>
        && ShareKey(id) in kv
        && (kv[ShareKey(id)] == Backfilled(r.record, t3) || (kv == old(kv) && InStore(kv, ShareKey(id), t1)))
      ensures r.Failed? && id != "" && getOk && dropOk ==> !InStore(kv, ShareKey(id), t1)
    {
      if id == "" {
        return Failed(Rejected);
      }
      assert CoherentAt(rows, kv, id);
      var key := ShareKey(id);
      if getOk && InStore(kv, key, t1) {
        var hit := kv[key].record;
        if !IsExpired(t1, hit.base.expireAt) {
          return Found(hit);
        }
        ghost var before := kv;
        DropCached(id, dropOk);
        OneShareChanged(rows, before, rows, kv, id);
      }
      if !dbOk {
        return Failed(DbError);
      }
      if id !in rows || rows[id].deleted {
        return Failed(NotFound);
      }
      if IsExpired(t2, rows[id].record.base.expireAt) {
        return Failed(Over);
      }
      var record := rows[id].record;
      ghost var before := kv;
      CacheShare(record, TtlFromExpire(record.base.expireAt, t3), false, backfillOk, t3);
      OneShareChanged(rows, before, rows, kv, id);
      return Found(record);
    }

    /** The clock is read for the creation time, again for the lifetime, and once more by the cache. */
    method CreateShare(user: string, id: string, request: CreateRequest, dbOk: bool, cacheOk: bool,
                       t1: int, t2: int, t3: int)
      returns (r: Answer)
      requires Valid() && t1 <= t2 <= t3
      modifies this
      ensures Valid()
      ensures if user == "" || |request.objectKeys| == 0 then r == Failed(Rejected) && rows == old(rows)
              else if !dbOk || id in old(rows) then r == Failed(DbError) && rows == old(rows)
              else r == Found(NewRecord(user, id, request, t1)) && rows == old(rows)[id := Row(r.record, false)]
      ensures kv == if r.Found? && cacheOk
                    then old(kv)[ShareKey(id) := Cached(r.record, CreateTtl(ExpireAt(request, t1), t2), t3, true)]
                    else old(kv)
      ensures r.Found? ==> AsRequested(r.record, user, id, request, t1)
      ensures r.Found? && cacheOk ==>
        kv[ShareKey(id)].ttl == if request.expireDays > 0 && r.record.base.expireAt.value > t2
                                then r.record.base.expireAt.value - t2 else 0
    {
      if user == "" || |request.objectKeys| == 0 {
        return Failed(Rejected);
      }
      var expire: Option<int>, ttl := None, 0;
      if request.expireDays > 0 {
        expire := Some(t1 + request.expireDays * DAY);
        ttl := if expire.value - t2 > 0 then expire.value - t2 else 0;
      }
      if !dbOk || id in rows {
        return Failed(DbError);
      }
      var record := NewRecord(user, id, request, t1);
      rows := rows[id := Row(record, false)];
      CacheShare(record, ttl, true, cacheOk, t3);
      assert CoherentAt(old(rows), old(kv), id);
      OneShareChanged(old(rows), old(kv), rows, kv, id);
      return Found(record);
    }

    /** An edit takes effect in the database alone; coherence is lost exactly when the refresh fails while an entry is
        cached and the edit changed something. */
    method EditPermissions(user: string, id: string, change: Change, getOk: bool, dropOk: bool, dbOk: bool,
                           backfillOk: bool, updateOk: bool, refreshOk: bool, t1: int, t2: int, t3: int)
      returns (r: Answer)
      requires Valid() && t1 <= t2 <= t3
      modifies this
      ensures var atFirst, atSecond := EditAnswer(old(rows), user, id, change, t1),
                                EditAnswer(old(rows), user, id, change, t2);
        r == atFirst || r == atSecond || (r == Failed(DbError) && !(dbOk && updateOk))
      ensures r != Done ==> rows == old(rows) && Valid()
      ensures r == Done ==> updateOk && id in old(rows) && rows == Edited(old(rows), id, change)
      ensures r == Done ==> user != "" && old(rows)[id].record.base.owner == user && !old(rows)[id].deleted
      ensures OnlyEntryChanged(old(kv), kv, id)
      ensures r == Done && refreshOk ==> ShareKey(id) in kv && kv[ShareKey(id)] == Backfilled(rows[id].record, t3)
      ensures r == Done ==> (Valid() <==> refreshOk || ShareKey(id) !in kv || rows == old(rows))
    {
      if user == "" || id == "" || !WellNamed(change) {
        return Failed(Rejected);
      }
      var got := GetShareCached(id, getOk, dropOk, dbOk, backfillOk, t1, t2, t3);
      if got.Failed? {
        return got;
      }
      var record := got.record;
      if record.base.owner != user {
        return Failed(Forbidden);
      }
      record := record.(permissions := Apply(change, record.permissions));
      if !updateOk {
        return Failed(DbError);
      }
      ghost var rowsBefore, kvBefore := rows, kv;
      assert CoherentAt(rows, kv, id);
      rows := rows[id := rows[id].(record := rows[id].record.(permissions := record.permissions))];
      assert rows == Edited(old(rows), id, change);
      CacheShare(record, TtlFromExpire(record.base.expireAt, t3), false, refreshOk, t3);
      OneShareChanged(rowsBefore, kvBefore, rows, kv, id);
      return Done;
    }

    /** Deleting marks the row; coherence is lost exactly when the cache delete fails while an entry is cached. */
    method DeleteShare(user: string, id: string, findOk: bool, deleteOk: bool, dropOk: bool) returns (r: Answer)
      requires Valid()
      modifies this
      ensures r == DeleteAnswer(old(rows), user, id) || (r == Failed(DbError) && !(findOk && deleteOk))
      ensures r != Done ==> rows == old(rows)
      ensures kv == if r == Done && dropOk then old(kv) - {ShareKey(id)} else old(kv)
      ensures r == Done ==> id in old(rows) && rows == old(rows)[id := old(rows)[id].(deleted := true)]
      ensures r == Done <==> && findOk && deleteOk && user != "" && id != ""
                             && id in old(rows) && !old(rows)[id].deleted && old(rows)[id].record.base.owner == user
      ensures Valid() <==> r != Done || dropOk || ShareKey(id) !in old(kv)
    {
      if user == "" || id == "" {
        return Failed(Rejected);
      }
      if !findOk {
        return Failed(DbError);
      }
      if id !in rows || rows[id].deleted {
        return Failed(NotFound);
      }
      if rows[id].record.base.owner != user {
        return Failed(Forbidden);
      }
      if !deleteOk {
        return Failed(DbError);
      }
      assert CoherentAt(rows, kv, id);
      rows := rows[id := rows[id].(deleted := true)];
      DropCached(id, dropOk);
      OneShareChanged(old(rows), old(kv), rows, kv, id);
      return Done;
    }
  }

  /** The life of one share, call by call, with a working database and cache: it is created, a permission edit shows at
      the next read, and once deleted it is not found; a read or an edit after its expiry finds it over. */
  method OneShareLives(service: ShareService, user: string, id: string, request: CreateRequest, change: Change,
                       now: int, t1: int, t2: int, t3: int)
    returns (created: Answer, edited: Answer, shown: Answer, deleted: Answer, gone: Answer)
    requires service.Valid() && user != "" && id != "" && id !in service.rows
    requires |request.objectKeys| > 0 && WellNamed(change) && now <= t1 <= t2 <= t3
    modifies service
    ensures service.Valid() && ShareKey(id) !in service.kv
    ensures created.Found? && AsRequested(created.record, user, id, request, now)
    ensures var days := request.expireDays * 86_400_000_000_000; var r := created.record;
      && edited == (if days > 0 && t1 > now + days then Failed(Over) else Done)
      && shown == (if days > 0 && t2 > now + days then Failed(Over)
                   else Found(r.(permissions := Apply(change, r.permissions))))
    ensures deleted == Done && gone == Failed(NotFound)
  {
    created := service.CreateShare(user, id, request, true, true, now, now, now);
    edited := service.EditPermissions(user, id, change, true, true, true, true, true, true, t1, t1, t1);
    shown := service.GetShareCached(id, true, true, true, true, t2, t2, t2);
    deleted := service.DeleteShare(user, id, true, true, true);
    gone := service.GetShareCached(id, true, true, true, true, t3, t3, t3);
    assert CoherentAt(service.rows, service.kv, id);
  }
}
