/** A share call of the step machine run from its begin to its answer with nothing in between: it does what the service
    does in one piece, whichever of its database and cache calls fail. */
module ShareCalls {
  import opened Bytes
  import opened Envelope
  import opened ShareModel
  import opened ShareSteps
  import Service = ShareService

  /** Whether the next call works, if it goes to the cache and if it goes to the database. */
  datatype Luck = Luck(cache: bool, db: bool)

  predicate UsesDb(c: Call) {
    c.Inserting? || c.ReadingDb? || c.UpdatingDb? || c.CheckingOwner? || c.DeletingRow?
  }

  predicate Works(c: Call, l: Luck) {
    if UsesDb(c) then l.db else l.cache
  }

  /** The state once the call has taken a step for each piece of luck. */
  function Finish(s: State, call: nat, luck: seq<Luck>): State
    requires call in s.calls
    decreases |luck|
  {
    if |luck| == 0 then s
    else Finish(Advance(s, call, Works(s.calls[call], luck[0])), call, luck[1..])
  }

  ghost predicate DbWorks(luck: seq<Luck>) {
    forall i | 0 <= i < |luck| :: luck[i].db
  }

  ghost predicate CacheWorks(luck: seq<Luck>) {
    forall i | 0 <= i < |luck| :: luck[i].cache
  }

  /** It is a run of the machine in which only this call moves. */
  lemma {:induction false} FinishIsRun(s: State, call: nat, luck: seq<Luck>) returns (actions: seq<Action>)
    requires call in s.calls
    ensures forall a | a in actions :: a.Continue? && a.call == call
    ensures Run(s, actions) == Finish(s, call, luck)
    decreases |luck|
  {
    if |luck| == 0 {
      actions := [];
    } else {
      var first := Continue(call, Works(s.calls[call], luck[0]));
      var rest := FinishIsRun(Step(s, first), call, luck[1..]);
      RunThen(s, [], first);
      assert [] + [first] == [first];
      RunConcat(s, [first], rest);
      actions := [first] + rest;
    }
  }

  lemma AnsweredStays(s: State, call: nat, luck: seq<Luck>)
    requires call in s.calls && s.calls[call].Answered?
    ensures Finish(s, call, luck) == s
    decreases |luck|
  {
    if |luck| > 0 {
      assert Advance(s, call, Works(s.calls[call], luck[0])) == s;
      AnsweredStays(s, call, luck[1..]);
    }
  }

  // ---- deleting ----

  lemma FromDroppingDeleted(s: State, call: nat, id: string, luck: seq<Luck>)
    requires call in s.calls && s.calls[call] == DroppingDeleted(id) && |luck| >= 1
    ensures Finish(s, call, luck)
         == To(if luck[0].cache then s.(kv := s.kv - {ShareKey(id)}) else s, call, Answered(id, Done))
  {
    AnsweredStays(Advance(s, call, luck[0].cache), call, luck[1..]);
  }

  lemma FromDeletingRow(s: State, call: nat, id: string, luck: seq<Luck>)
    requires call in s.calls && s.calls[call] == DeletingRow(id) && |luck| >= 2 && id in s.rows
    ensures Finish(s, call, luck)
         == if !luck[0].db then To(s, call, Answered(id, Failed(DbError)))
            else To(s.(rows := s.rows[id := s.rows[id].(deleted := true)],
                       kv := if luck[1].cache then s.kv - {ShareKey(id)} else s.kv), call, Answered(id, Done))
  {
    var t := Advance(s, call, luck[0].db);
    if luck[0].db {
      FromDroppingDeleted(t, call, id, luck[1..]);
    } else {
      AnsweredStays(t, call, luck[1..]);
    }
  }

  lemma FromCheckingOwner(s: State, call: nat, id: string, user: string, luck: seq<Luck>)
    requires call in s.calls && s.calls[call] == CheckingOwner(id, user) && |luck| >= 3 && user != "" && id != ""
    ensures var answer := if luck[0].db then Service.DeleteAnswer(s.rows, user, id) else Failed(DbError);
      Finish(s, call, luck)
      == if answer != Done then To(s, call, Answered(id, answer))
         else if !luck[1].db then To(s, call, Answered(id, Failed(DbError)))
         else To(s.(rows := s.rows[id := s.rows[id].(deleted := true)],
                    kv := if luck[2].cache then s.kv - {ShareKey(id)} else s.kv), call, Answered(id, Done))
  {
    var t := Advance(s, call, luck[0].db);
    if t.calls[call].Answered? {
      AnsweredStays(t, call, luck[1..]);
    } else {
      FromDeletingRow(t, call, id, luck[1..]);
    }
  }

  /** How a delete ends: as the service's own does. */
  ghost predicate DeleteEnds(s: State, t: State, call: nat, user: string, id: string, luck: seq<Luck>) {
    && call in t.calls && t.calls[call].Answered? && t.calls[call].id == id
    && t == s.(rows := t.rows, kv := t.kv, calls := s.calls[call := t.calls[call]])
    && var answer := t.calls[call].answer;
    && (answer == Service.DeleteAnswer(s.rows, user, id) || (answer == Failed(DbError) && !DbWorks(luck)))
    && (answer == Done ==> id in s.rows)
    && t.rows == (if answer == Done then s.rows[id := s.rows[id].(deleted := true)] else s.rows)
    && (answer != Done ==> t.kv == s.kv)
    && (answer == Done && CacheWorks(luck) ==> t.kv == s.kv - {ShareKey(id)})
  }

  lemma DeleteConclusion(s: State, call: nat, user: string, id: string, luck: seq<Luck>, t: State)
    requires call !in s.calls && |luck| >= 6 && user != "" && id != ""
    requires var answer := if luck[0].db then Service.DeleteAnswer(s.rows, user, id) else Failed(DbError);
      t == if answer != Done then To(s, call, Answered(id, answer))
           else if !luck[1].db then To(s, call, Answered(id, Failed(DbError)))
           else To(s.(rows := s.rows[id := s.rows[id].(deleted := true)],
                      kv := if luck[2].cache then s.kv - {ShareKey(id)} else s.kv), call, Answered(id, Done))
    ensures DeleteEnds(s, t, call, user, id, luck)
  {
  }

  /** A delete marks the row as the database alone decides, and takes the share out of the cache. */
  lemma DeleteCall(s: State, call: nat, user: string, id: string, luck: seq<Luck>)
    requires call !in s.calls && |luck| >= 6
    ensures DeleteEnds(s, Finish(Step(s, Delete(call, user, id)), call, luck), call, user, id, luck)
  {
    var begun := Step(s, Delete(call, user, id));
    if user == "" || id == "" {
      AnsweredStays(begun, call, luck);
    } else {
      assert begun == To(s, call, CheckingOwner(id, user));
      FromCheckingOwner(begun, call, id, user, luck);
      ToTwice(s, call, CheckingOwner(id, user));
      DeleteConclusion(s, call, user, id, luck, Finish(begun, call, luck));
    }
  }

  lemma ToTwice(s: State, call: nat, first: Call)
    ensures forall c :: To(To(s, call, first), call, c) == To(s, call, c)
  {
  }

  // ---- creating ----

  lemma FromInserting(s: State, call: nat, r: Record, ttl: nat, luck: seq<Luck>)
    requires call in s.calls && s.calls[call] == Inserting(r, ttl) && |luck| >= 2
    ensures Finish(s, call, luck)
         == if !luck[0].db || r.shareId in s.rows then To(s, call, Answered(r.shareId, Failed(DbError)))
            else To(s.(rows := s.rows[r.shareId := Row(r, false)], created := s.created[r.shareId := r],
                       kv := if luck[1].cache then s.kv[ShareKey(r.shareId) := Cached(r, ttl, s.clock, true)]
                             else s.kv),
                    call, Answered(r.shareId, Found(r)))
  {
    var t := Advance(s, call, luck[0].db);
    if t.calls[call].Answered? {
      AnsweredStays(t, call, luck[1..]);
    } else {
      FromCachingNew(t, call, r, ttl, luck[1..]);
    }
  }

  lemma FromCachingNew(s: State, call: nat, r: Record, ttl: nat, luck: seq<Luck>)
    requires call in s.calls && s.calls[call] == CachingNew(r, ttl) && |luck| >= 1
    ensures Finish(s, call, luck)
         == To(if luck[0].cache then s.(kv := s.kv[ShareKey(r.shareId) := Cached(r, ttl, s.clock, true)]) else s, call,
               Answered(r.shareId, Found(r)))
  {
    AnsweredStays(Advance(s, call, luck[0].cache), call, luck[1..]);
  }

  ghost predicate CreateEnds(s: State, t: State, call: nat, user: string, id: string, request: CreateRequest,
                             luck: seq<Luck>) {
    var r := NewRecord(user, id, request, s.clock);
    && call in t.calls && t.calls[call].Answered? && t.calls[call].id == id
    && t == s.(rows := t.rows, created := t.created, kv := t.kv, calls := s.calls[call := t.calls[call]])
    && var answer := t.calls[call].answer;
    && (if user == "" || |request.objectKeys| == 0 then answer == Failed(Rejected)
        else if id in s.rows then answer == Failed(DbError)
        else answer == Found(r) || (answer == Failed(DbError) && !DbWorks(luck)))
    && t.rows == (if answer.Found? then s.rows[id := Row(r, false)] else s.rows)
    && (answer.Failed? ==> t.kv == s.kv)
    && (answer.Found? ==> t.kv == s.kv || t.kv == s.kv[ShareKey(id) :=
          Cached(r, CreateTtl(ExpireAt(request, s.clock), s.clock), s.clock, true)])
    && (answer.Found? && CacheWorks(luck) ==> ShareKey(id) in t.kv && t.kv[ShareKey(id)].record == r)
  }

  lemma CreateConclusion(s: State, call: nat, user: string, id: string, request: CreateRequest, luck: seq<Luck>,
                         t: State)
    requires call !in s.calls && |luck| >= 6 && user != "" && |request.objectKeys| > 0
    requires var r, ttl := NewRecord(user, id, request, s.clock), CreateTtl(ExpireAt(request, s.clock), s.clock);
      t == if !luck[0].db || id in s.rows then To(s, call, Answered(id, Failed(DbError)))
           else To(s.(rows := s.rows[id := Row(r, false)], created := s.created[id := r],
                      kv := if luck[1].cache then s.kv[ShareKey(id) := Cached(r, ttl, s.clock, true)] else s.kv),
                   call, Answered(id, Found(r)))
    ensures CreateEnds(s, t, call, user, id, request, luck)
  {
  }

  lemma CreateBegun(s: State, call: nat, r: Record, ttl: nat, luck: seq<Luck>)
    requires call !in s.calls && |luck| >= 6
    ensures Finish(To(s, call, Inserting(r, ttl)), call, luck)
         == if !luck[0].db || r.shareId in s.rows then To(s, call, Answered(r.shareId, Failed(DbError)))
            else To(s.(rows := s.rows[r.shareId := Row(r, false)], created := s.created[r.shareId := r],
                       kv := if luck[1].cache then s.kv[ShareKey(r.shareId) := Cached(r, ttl, s.clock, true)]
                             else s.kv),
                    call, Answered(r.shareId, Found(r)))
  {
    FromInserting(To(s, call, Inserting(r, ttl)), call, r, ttl, luck);
  }

  /** A creation inserts its row unless the request is rejected, the ID taken or the database fails, and caches it. */
  lemma CreateCall(s: State, call: nat, user: string, id: string, request: CreateRequest, luck: seq<Luck>)
    requires call !in s.calls && |luck| >= 6
    ensures CreateEnds(s, Finish(Step(s, Create(call, user, id, request)), call, luck), call, user, id, request, luck)
  {
    var begun := Step(s, Create(call, user, id, request));
    if user == "" || |request.objectKeys| == 0 {
      AnsweredStays(begun, call, luck);
    } else {
      var r, ttl := NewRecord(user, id, request, s.clock), CreateTtl(ExpireAt(request, s.clock), s.clock);
      CreateBegun(s, call, r, ttl, luck);
      CreateConclusion(s, call, user, id, request, luck, Finish(begun, call, luck));
    }
  }

  // ---- reading and editing ----

  /** Where the read phase leaves a call: at its record, or answered with the database's failure. */
  ghost predicate Obtained(s: State, t: State, call: nat, id: string, purpose: Purpose, luck: seq<Luck>)
    requires call in s.calls && call in t.calls
  {
    var c, loaded := t.calls[call], Service.Load(s.rows, id, s.clock);
    && t == s.(kv := t.kv, calls := s.calls[call := c])
    && Service.OnlyEntryChanged(s.kv, t.kv, id)
    && ((loaded.Found? && c == WithRecord(id, loaded.record, purpose))
        || (loaded.Failed? && c == Answered(id, loaded))
        || (c == Answered(id, Failed(DbError)) && !DbWorks(luck)))
    && (CacheWorks(luck) && c != Answered(id, Failed(DbError)) && loaded.Found? ==>
          ShareKey(id) in t.kv && t.kv[ShareKey(id)].record == loaded.record)
  }

  /** With a working cache, a share that is not found is not given out by it either. */
  ghost predicate Dropped(s: State, t: State, id: string, luck: seq<Luck>) {
    Service.Load(s.rows, id, s.clock).Failed? && CacheWorks(luck) ==> !InStore(t.kv, ShareKey(id), s.clock)
  }

  lemma FromBackfilling(s: State, call: nat, id: string, r: Record, purpose: Purpose, luck: seq<Luck>)
    returns (t: State, rest: seq<Luck>)
    requires call in s.calls && s.calls[call] == Backfilling(id, r, purpose) && |luck| >= 1
    requires r.shareId == id
    ensures call in t.calls && rest == luck[1..] && Finish(s, call, luck) == Finish(t, call, rest)
    ensures t == To(if luck[0].cache then s.(kv := s.kv[ShareKey(id) := Service.Backfilled(r, s.clock)]) else s, call,
                    WithRecord(id, r, purpose))
  {
    t, rest := Advance(s, call, luck[0].cache), luck[1..];
  }

  lemma FromReadingDb(s: State, call: nat, id: string, purpose: Purpose, luck: seq<Luck>)
    returns (t: State, rest: seq<Luck>)
    requires call in s.calls && s.calls[call] == ReadingDb(id, purpose) && |luck| >= 2 && id != ""
    requires id in s.rows ==> s.rows[id].record.shareId == id
    ensures call in t.calls && |rest| >= |luck| - 2 && Suffix(rest, luck)
    ensures Finish(s, call, luck) == Finish(t, call, rest)
    ensures Obtained(s, t, call, id, purpose, luck)
    ensures t.kv == s.kv || (Service.Load(s.rows, id, s.clock).Found?
                             && t.kv == s.kv[ShareKey(id) := Service.Backfilled(s.rows[id].record, s.clock)])
  {
    var u := Advance(s, call, luck[0].db);
    if u.calls[call].Answered? {
      t, rest := u, luck[1..];
    } else {
      t, rest := FromBackfilling(u, call, id, s.rows[id].record, purpose, luck[1..]);
    }
  }

  predicate Suffix(rest: seq<Luck>, luck: seq<Luck>) {
    |rest| <= |luck| && rest == luck[|luck| - |rest|..]
  }

  lemma SuffixWorks(rest: seq<Luck>, luck: seq<Luck>)
    requires Suffix(rest, luck)
    ensures DbWorks(luck) ==> DbWorks(rest)
    ensures CacheWorks(luck) ==> CacheWorks(rest)
  {
    assert forall i | 0 <= i < |rest| :: rest[i] == luck[|luck| - |rest| + i];
  }

  /** From the database on, after a miss or the drop of an expired entry. */
  lemma ThenReadingDb(s: State, u: State, call: nat, id: string, purpose: Purpose, luck: seq<Luck>, left: seq<Luck>)
    returns (t: State, rest: seq<Luck>)
    requires call in s.calls && u == s.(kv := u.kv, calls := s.calls[call := ReadingDb(id, purpose)])
    requires Service.OnlyEntryChanged(s.kv, u.kv, id) && Service.Coherent(s.rows, u.kv)
    requires |left| >= 2 && Suffix(left, luck) && id != ""
    requires CacheWorks(luck) ==> !InStore(u.kv, ShareKey(id), s.clock)
    ensures call in t.calls && |rest| >= |left| - 2 && Suffix(rest, luck)
    ensures Finish(u, call, left) == Finish(t, call, rest)
    ensures Obtained(s, t, call, id, purpose, luck) && Service.Coherent(t.rows, t.kv) && Dropped(s, t, id, luck)
  {
    SuffixWorks(left, luck);
    t, rest := FromReadingDb(u, call, id, purpose, left);
    BackfillKeepsCoherent(s.rows, u.kv, t.kv, id, s.clock);
  }

  lemma BackfillKeepsCoherent(rows: Service.Rows, kv: Cache, kv': Cache, id: string, now: int)
    requires Service.Coherent(rows, kv)
    requires kv' == kv || (Service.Load(rows, id, now).Found?
                           && kv' == kv[ShareKey(id) := Service.Backfilled(rows[id].record, now)])
    ensures Service.Coherent(rows, kv')
  {
    assert Service.CoherentAt(rows, kv, id);
    Service.OneShareChanged(rows, kv, rows, kv', id);
  }

  /** The read phase of a read or an edit over a coherent cache. */
  lemma FromReadingCache(s: State, call: nat, id: string, purpose: Purpose, luck: seq<Luck>)
    returns (t: State, rest: seq<Luck>)
    requires call in s.calls && s.calls[call] == ReadingCache(id, purpose) && |luck| >= 4 && id != ""
    requires Service.Coherent(s.rows, s.kv)
    ensures call in t.calls && |rest| >= |luck| - 4 && Suffix(rest, luck)
    ensures Finish(s, call, luck) == Finish(t, call, rest)
    ensures Obtained(s, t, call, id, purpose, luck) && Service.Coherent(t.rows, t.kv) && Dropped(s, t, id, luck)
  {
    var u := Advance(s, call, luck[0].cache);
    CacheStep(s, call, id, purpose, luck[0].cache);
    if u.calls[call].ReadingDb? {
      t, rest := ThenReadingDb(s, u, call, id, purpose, luck, luck[1..]);
    } else if u.calls[call].DroppingExpired? {
      var v := Advance(u, call, luck[1].cache);
      DropStep(s, u, call, id, purpose, luck[1].cache);
      assert luck[1..][1..] == luck[2..];
      t, rest := ThenReadingDb(s, v, call, id, purpose, luck, luck[2..]);
    } else {
      t, rest := u, luck[1..];
    }
  }

  lemma CacheStep(s: State, call: nat, id: string, purpose: Purpose, ok: bool)
    requires call in s.calls && s.calls[call] == ReadingCache(id, purpose) && id != ""
    requires Service.Coherent(s.rows, s.kv)
    ensures var u := Advance(s, call, ok); var loaded := Service.Load(s.rows, id, s.clock);
      && u == s.(calls := s.calls[call := u.calls[call]])
      && (ok && u.calls[call].ReadingDb? ==> !InStore(s.kv, ShareKey(id), s.clock))
      && (u.calls[call] == ReadingDb(id, purpose) || u.calls[call] == DroppingExpired(id, purpose)
          || (loaded.Found? && ShareKey(id) in s.kv && s.kv[ShareKey(id)].record == loaded.record
              && u.calls[call] == WithRecord(id, loaded.record, purpose)
              && (u.calls[call].Answered? || u.calls[call].UpdatingDb?)))
  {
    assert Service.CoherentAt(s.rows, s.kv, id);
  }

  lemma DropStep(s: State, u: State, call: nat, id: string, purpose: Purpose, ok: bool)
    requires call in s.calls && u == s.(calls := s.calls[call := DroppingExpired(id, purpose)])
    requires Service.Coherent(s.rows, s.kv)
    ensures var v := Advance(u, call, ok);
      && v == s.(kv := v.kv, calls := s.calls[call := ReadingDb(id, purpose)])
      && Service.OnlyEntryChanged(s.kv, v.kv, id) && Service.Coherent(s.rows, v.kv)
      && (ok ==> ShareKey(id) !in v.kv)
  {
    LosingKeepsCoherent(s.rows, s.kv, ShareKey(id));
  }

  ghost predicate ReadEnds(s: State, t: State, call: nat, id: string, luck: seq<Luck>) {
    && call in t.calls && t.calls[call].Answered? && t.calls[call].id == id
    && t == s.(kv := t.kv, calls := s.calls[call := t.calls[call]])
    && Service.Coherent(t.rows, t.kv) && Service.OnlyEntryChanged(s.kv, t.kv, id)
    && var answer := t.calls[call].answer;
    && (answer == Service.Load(s.rows, id, s.clock) || (answer == Failed(DbError) && !DbWorks(luck)))
    && (answer.Found? && CacheWorks(luck) ==> ShareKey(id) in t.kv && t.kv[ShareKey(id)].record == answer.record)
    && (answer.Failed? && id != "" && CacheWorks(luck) && DbWorks(luck) ==> !InStore(t.kv, ShareKey(id), s.clock))
  }

  lemma ReadConclusion(s: State, begun: State, call: nat, id: string, luck: seq<Luck>, t: State)
    requires call !in s.calls && begun == To(s, call, ReadingCache(id, Show)) && call in t.calls
    requires Obtained(begun, t, call, id, Show, luck) && Service.Coherent(t.rows, t.kv) && Dropped(begun, t, id, luck)
    ensures ReadEnds(s, t, call, id, luck)
  {
  }

  /** A read answers what the database alone does, and leaves what it found in the cache. */
  lemma ReadCall(s: State, call: nat, id: string, luck: seq<Luck>)
    requires call !in s.calls && |luck| >= 6 && Service.Coherent(s.rows, s.kv)
    ensures ReadEnds(s, Finish(Step(s, Read(call, id)), call, luck), call, id, luck)
  {
    var begun := Step(s, Read(call, id));
    if id == "" {
      AnsweredStays(begun, call, luck);
    } else {
      assert begun == To(s, call, ReadingCache(id, Show));
      var t, rest := FromReadingCache(begun, call, id, Show, luck);
      ReadConclusion(s, begun, call, id, luck, t);
      AnsweredStays(t, call, rest);
    }
  }

  /** A cached share that is not over answers a read by itself: neither database nor cache is touched again. */
  lemma HitAnswers(s: State, call: nat, id: string, luck: seq<Luck>)
    requires call !in s.calls && |luck| > 0 && luck[0].cache && id != "" && Service.Hit(s.kv, id, s.clock)
    ensures Finish(Step(s, Read(call, id)), call, luck) == To(s, call, Answered(id, Found(s.kv[ShareKey(id)].record)))
  {
    var begun := Step(s, Read(call, id));
    assert begun == To(s, call, ReadingCache(id, Show));
    AnsweredStays(Advance(begun, call, true), call, luck[1..]);
    ToTwice(s, call, ReadingCache(id, Show));
  }

  lemma FromUpdatingDb(s: State, call: nat, id: string, r: Record, luck: seq<Luck>)
    requires call in s.calls && s.calls[call] == UpdatingDb(id, r) && |luck| >= 2 && r.shareId == id && Visible(s, id)
    ensures Finish(s, call, luck)
         == if !luck[0].db then To(s, call, Answered(id, Failed(DbError)))
            else To(s.(rows := s.rows[id := s.rows[id].(record := s.rows[id].record.(permissions := r.permissions))],
                       kv := if luck[1].cache then s.kv[ShareKey(id) := Service.Backfilled(r, s.clock)] else s.kv),
                    call, Answered(id, Done))
  {
    var t := Advance(s, call, luck[0].db);
    if luck[0].db {
      FromRefreshing(t, call, r, luck[1..]);
    } else {
      AnsweredStays(t, call, luck[1..]);
    }
  }

  lemma FromRefreshing(s: State, call: nat, r: Record, luck: seq<Luck>)
    requires call in s.calls && s.calls[call] == Refreshing(r) && |luck| >= 1
    ensures Finish(s, call, luck)
         == To(if luck[0].cache then s.(kv := s.kv[ShareKey(r.shareId) := Service.Backfilled(r, s.clock)]) else s, call,
               Answered(r.shareId, Done))
  {
    AnsweredStays(Advance(s, call, luck[0].cache), call, luck[1..]);
  }

  ghost predicate EditEnds(s: State, t: State, call: nat, user: string, id: string, change: Change, luck: seq<Luck>) {
    && call in t.calls && t.calls[call].Answered? && t.calls[call].id == id
    && t == s.(rows := t.rows, kv := t.kv, calls := s.calls[call := t.calls[call]])
    && Service.OnlyEntryChanged(s.kv, t.kv, id)
    && var answer := t.calls[call].answer;
    && (answer == Service.EditAnswer(s.rows, user, id, change, s.clock)
        || (answer == Failed(DbError) && !DbWorks(luck)))
    && (answer == Done ==> id in s.rows)
    && t.rows == (if answer == Done then Service.Edited(s.rows, id, change) else s.rows)
    && (answer != Done || CacheWorks(luck) ==> Service.Coherent(t.rows, t.kv))
    && (answer == Done && CacheWorks(luck) ==>
          ShareKey(id) in t.kv && t.kv[ShareKey(id)] == Service.Backfilled(t.rows[id].record, s.clock))
  }

  lemma EditRefused(s: State, begun: State, call: nat, user: string, id: string, change: Change, luck: seq<Luck>,
                    t: State)
    requires call !in s.calls && begun == To(s, call, ReadingCache(id, Edit(user, change))) && call in t.calls
    requires Obtained(begun, t, call, id, Edit(user, change), luck) && Service.Coherent(t.rows, t.kv)
    requires user != "" && id != "" && WellNamed(change) && t.calls[call].Answered?
    ensures EditEnds(s, t, call, user, id, change, luck)
  {
  }

  lemma EditedRows(s: State, begun: State, call: nat, user: string, id: string, change: Change, luck: seq<Luck>,
                   t: State)
    requires call !in s.calls && begun == To(s, call, ReadingCache(id, Edit(user, change))) && call in t.calls
    requires Obtained(begun, t, call, id, Edit(user, change), luck) && Service.Coherent(t.rows, t.kv)
    requires user != "" && id != "" && WellNamed(change) && t.calls[call].UpdatingDb? && id in s.rows
    ensures var r := t.calls[call].record;
      && t.rows == s.rows && t.clock == s.clock && r.shareId == id && Service.OnlyEntryChanged(s.kv, t.kv, id)
      && t.rows[id := t.rows[id].(record := t.rows[id].record.(permissions := r.permissions))]
         == Service.Edited(s.rows, id, change)
      && r == Service.Edited(s.rows, id, change)[id].record
      && Service.EditAnswer(s.rows, user, id, change, s.clock) == Done
  {
  }

  lemma EditConclusion(s: State, begun: State, call: nat, user: string, id: string, change: Change, luck: seq<Luck>,
                       t: State, rest: seq<Luck>, done: State)
    requires call !in s.calls && begun == To(s, call, ReadingCache(id, Edit(user, change))) && call in t.calls
    requires Obtained(begun, t, call, id, Edit(user, change), luck) && Service.Coherent(t.rows, t.kv)
    requires user != "" && id != "" && WellNamed(change) && t.calls[call].UpdatingDb?
    requires |rest| >= 2 && Suffix(rest, luck) && id in s.rows
    requires var r := t.calls[call].record;
      done == if !rest[0].db then To(t, call, Answered(id, Failed(DbError)))
              else To(t.(rows := t.rows[id := t.rows[id].(record := t.rows[id].record.(permissions := r.permissions))],
                         kv := if rest[1].cache then t.kv[ShareKey(id) := Service.Backfilled(r, t.clock)] else t.kv),
                      call, Answered(id, Done))
    ensures EditEnds(s, done, call, user, id, change, luck)
  {
    SuffixWorks(rest, luck);
    EditedRows(s, begun, call, user, id, change, luck, t);
    assert Service.CoherentAt(t.rows, t.kv, id);
    Service.OneShareChanged(t.rows, t.kv, done.rows, done.kv, id);
  }

  /** An edit ends and changes the row as the database alone decides, and its new record is in the cache. */
  lemma EditCall(s: State, call: nat, user: string, id: string, change: Change, luck: seq<Luck>)
    requires call !in s.calls && |luck| >= 6 && Service.Coherent(s.rows, s.kv)
    ensures EditEnds(s, Finish(Step(s, EditPermissions(call, user, id, change)), call, luck), call, user, id, change,
                     luck)
  {
    var begun := Step(s, EditPermissions(call, user, id, change));
    if user == "" || id == "" || !WellNamed(change) {
      AnsweredStays(begun, call, luck);
    } else {
      EditBegun(s, call, user, id, change, luck);
    }
  }

  lemma EditBegun(s: State, call: nat, user: string, id: string, change: Change, luck: seq<Luck>)
    requires call !in s.calls && |luck| >= 6 && Service.Coherent(s.rows, s.kv)
    requires user != "" && id != "" && WellNamed(change)
    ensures EditEnds(s, Finish(Step(s, EditPermissions(call, user, id, change)), call, luck), call, user, id, change,
                     luck)
  {
    var begun := Step(s, EditPermissions(call, user, id, change));
    assert begun == To(s, call, ReadingCache(id, Edit(user, change)));
    var t, rest := FromReadingCache(begun, call, id, Edit(user, change), luck);
    if t.calls[call].Answered? {
      EditRefused(s, begun, call, user, id, change, luck, t);
      AnsweredStays(t, call, rest);
    } else {
      FromUpdatingDb(t, call, id, t.calls[call].record, rest);
      EditConclusion(s, begun, call, user, id, change, luck, t, rest, Finish(t, call, rest));
    }
  }

  // ---- whole runs, one call after the other ----

  datatype Op =
    | Creates(user: string, id: string, request: CreateRequest)
    | Reads(id: string)
    | Edits(user: string, id: string, change: Change)
    | Deletes(user: string, id: string)
    | Waits(elapsed: nat)
    | Loses(key: string)

  function Perform(s: State, call: nat, op: Op, luck: seq<Luck>): State
    requires call !in s.calls
  {
    match op
    case Creates(user, id, request) => Finish(Step(s, Create(call, user, id, request)), call, luck)
    case Reads(id) => Finish(Step(s, Read(call, id)), call, luck)
    case Edits(user, id, change) => Finish(Step(s, EditPermissions(call, user, id, change)), call, luck)
    case Deletes(user, id) => Finish(Step(s, Delete(call, user, id)), call, luck)
    case Waits(elapsed) => Step(s, Tick(elapsed))
    case Loses(key) => Step(s, Vanish(key))
  }

  lemma PerformKeepsCoherent(s: State, call: nat, op: Op, luck: seq<Luck>)
    requires call !in s.calls && |luck| >= 6 && CacheWorks(luck) && Service.Coherent(s.rows, s.kv)
    ensures var t := Perform(s, call, op, luck);
      && Service.Coherent(t.rows, t.kv)
      && forall c | c in t.calls && c !in s.calls :: c == call
  {
    var t := Perform(s, call, op, luck);
    match op {
      case Creates(user, id, request) =>
        CreateCall(s, call, user, id, request, luck);
        assert Service.CoherentAt(s.rows, s.kv, id);
        Service.OneShareChanged(s.rows, s.kv, t.rows, t.kv, id);
      case Reads(id) =>
        ReadCall(s, call, id, luck);
      case Edits(user, id, change) =>
        EditCall(s, call, user, id, change, luck);
      case Deletes(user, id) =>
        DeleteCall(s, call, user, id, luck);
        assert Service.CoherentAt(s.rows, s.kv, id);
        Service.OneShareChanged(s.rows, s.kv, t.rows, t.kv, id);
      case Waits(_) =>
      case Loses(key) =>
        LosingKeepsCoherent(s.rows, s.kv, key);
    }
  }

  lemma LosingKeepsCoherent(rows: Service.Rows, kv: Cache, key: string)
    requires Service.Coherent(rows, kv)
    ensures Service.Coherent(rows, kv - {key})
  {
    forall id
      ensures Service.CoherentAt(rows, kv - {key}, id)
    {
      assert Service.CoherentAt(rows, kv, id);
    }
  }

  /** The state after a run of whole calls, numbered as they come. */
  function Serial(clock: int, ops: seq<(Op, seq<Luck>)>): (s: State)
    ensures forall c | c in s.calls :: c < |ops|
  {
    if |ops| == 0 then Start(clock)
    else
      var n := |ops| - 1;
      PerformAddsOne(Serial(clock, ops[..n]), n, ops[n].0, ops[n].1);
      Perform(Serial(clock, ops[..n]), n, ops[n].0, ops[n].1)
  }

  lemma PerformAddsOne(s: State, call: nat, op: Op, luck: seq<Luck>)
    requires call !in s.calls
    ensures Perform(s, call, op, luck).calls.Keys <= s.calls.Keys + {call}
  {
    match op {
      case Creates(user, id, request) =>
        FinishKeepsCalls(Step(s, Create(call, user, id, request)), call, luck);
      case Reads(id) =>
        FinishKeepsCalls(Step(s, Read(call, id)), call, luck);
      case Edits(user, id, change) =>
        FinishKeepsCalls(Step(s, EditPermissions(call, user, id, change)), call, luck);
      case Deletes(user, id) =>
        FinishKeepsCalls(Step(s, Delete(call, user, id)), call, luck);
      case _ =>
    }
  }

  lemma FinishKeepsCalls(s: State, call: nat, luck: seq<Luck>)
    requires call in s.calls
    ensures Finish(s, call, luck).calls.Keys == s.calls.Keys
    decreases |luck|
  {
    if |luck| > 0 {
      var ok := Works(s.calls[call], luck[0]);
      DoKeepsCalls(s, NextMove(s, s.calls[call], ok).effect);
      FinishKeepsCalls(Advance(s, call, ok), call, luck[1..]);
    }
  }

  /** Over every run of whole calls whose cache calls work, whatever the database does, every cached share is its
      undeleted row, permissions and all, so no deleted share is cached. */
  lemma {:induction false} SerialRunsAreCoherent(clock: int, ops: seq<(Op, seq<Luck>)>, id: string)
    requires forall i | 0 <= i < |ops| :: |ops[i].1| >= 6 && CacheWorks(ops[i].1)
    ensures var s := Serial(clock, ops); Service.Coherent(s.rows, s.kv)
    ensures var s := Serial(clock, ops);
      ShareKey(id) in s.kv ==> id in s.rows && !s.rows[id].deleted && s.kv[ShareKey(id)].record == s.rows[id].record
  {
    if |ops| > 0 {
      var n := |ops| - 1;
      SerialRunsAreCoherent(clock, ops[..n], id);
      PerformKeepsCoherent(Serial(clock, ops[..n]), n, ops[n].0, ops[n].1);
    }
    assert Service.CoherentAt(Serial(clock, ops).rows, Serial(clock, ops).kv, id);
  }
}
