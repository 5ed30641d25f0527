/** The share service with every database and cache call a separate step, in any interleaving. */
module ShareSteps {
  import opened Bytes
  import opened Envelope
  import opened ShareModel

  datatype Purpose = Show | Edit(user: string, change: Change)

  /** Where a call in flight stands: the step it takes next. */
  datatype Call =
    | Inserting(record: Record, ttl: nat)
    | CachingNew(record: Record, ttl: nat)
    | ReadingCache(id: string, purpose: Purpose)
    | DroppingExpired(id: string, purpose: Purpose)
    | ReadingDb(id: string, purpose: Purpose)
    | Backfilling(id: string, record: Record, purpose: Purpose)
    | UpdatingDb(id: string, record: Record)
    | Refreshing(record: Record)
    | CheckingOwner(id: string, user: string)
    | DeletingRow(id: string)
    | DroppingDeleted(id: string)
    | Answered(id: string, answer: Answer)

  datatype State = State(
    rows: map<string, Row>,
    kv: Cache,
    calls: map<nat, Call>,
    created: map<string, Record>,
    clock: int)

  /** `ok` says whether the step's database or cache call works; a failed cache call has no effect and is ignored. */
  datatype Action =
    | Tick(elapsed: nat)
    | Vanish(key: string)
    | Create(call: nat, user: string, id: string, request: CreateRequest)
    | Read(call: nat, id: string)
    | EditPermissions(call: nat, user: string, id: string, change: Change)
    | Delete(call: nat, user: string, id: string)
    | Continue(call: nat, ok: bool)

  function Start(clock: int): State {
    State(map[], map[], map[], map[], clock)
  }

  /** What a call does with the record it asked for. */
  function WithRecord(id: string, record: Record, purpose: Purpose): Call {
    match purpose
    case Show => Answered(id, Found(record))
    case Edit(user, change) =>
      if record.base.owner != user then Answered(id, Failed(Forbidden))
      else UpdatingDb(id, record.(permissions := Apply(change, record.permissions)))
  }

  predicate Visible(s: State, id: string) {
    id in s.rows && !s.rows[id].deleted
  }

  function To(s: State, call: nat, next: Call): State {
    s.(calls := s.calls[call := next])
  }

  /** What one database or cache call does. */
  datatype Effect =
    | Nothing
    | Insert(record: Record)
    | SetPermissions(id: string, permissions: Permissions)
    | MarkDeleted(id: string)
    | Put(record: Record, ttl: nat, atCreation: bool)
    | Drop(id: string)

  function Do(s: State, e: Effect): State {
    match e
    case Nothing => s
    case Insert(r) =>
      s.(rows := s.rows[r.shareId := Row(r, false)], created := s.created[r.shareId := r])
    case SetPermissions(id, permissions) =>
      if Visible(s, id)
      then s.(rows := s.rows[id := s.rows[id].(record := s.rows[id].record.(permissions := permissions))])
      else s
    case MarkDeleted(id) =>
      if id in s.rows then s.(rows := s.rows[id := s.rows[id].(deleted := true)]) else s
    case Put(r, ttl, atCreation) => s.(kv := s.kv[ShareKey(r.shareId) := Cached(r, ttl, s.clock, atCreation)])
    case Drop(id) => s.(kv := s.kv - {ShareKey(id)})
  }

  /** The call one step makes, and where the step leaves off. */
  datatype Move = Move(effect: Effect, next: Call)

  function Unless(failed: bool, e: Effect): Effect {
    if failed then Nothing else e
  }

  /** The next step of a call in flight. */
  function NextMove(s: State, c: Call, ok: bool): Move {
    match c
    case Inserting(record, ttl) =>
      if !ok || record.shareId in s.rows then Move(Nothing, Answered(record.shareId, Failed(DbError)))
      else Move(Insert(record), CachingNew(record, ttl))
    case CachingNew(record, ttl) =>
      Move(Unless(!ok, Put(record, ttl, true)), Answered(record.shareId, Found(record)))
    case ReadingCache(id, purpose) =>
      if !ok || !InStore(s.kv, ShareKey(id), s.clock) then Move(Nothing, ReadingDb(id, purpose))
      else
        var hit := s.kv[ShareKey(id)].record;
        if IsExpired(s.clock, hit.base.expireAt) then Move(Nothing, DroppingExpired(id, purpose))
        else Move(Nothing, WithRecord(id, hit, purpose))
    case DroppingExpired(id, purpose) => Move(Unless(!ok, Drop(id)), ReadingDb(id, purpose))
    case ReadingDb(id, purpose) =>
      if !ok then Move(Nothing, Answered(id, Failed(DbError)))
      else if !Visible(s, id) then Move(Nothing, Answered(id, Failed(NotFound)))
      else if IsExpired(s.clock, s.rows[id].record.base.expireAt) then Move(Nothing, Answered(id, Failed(Over)))
      else Move(Nothing, Backfilling(id, s.rows[id].record, purpose))
    case Backfilling(id, record, purpose) =>
      Move(Unless(!ok, Put(record, TtlFromExpire(record.base.expireAt, s.clock), false)),
           WithRecord(id, record, purpose))
    case UpdatingDb(id, record) =>
      if !ok then Move(Nothing, Answered(id, Failed(DbError)))
      else Move(SetPermissions(id, record.permissions), Refreshing(record))
    case Refreshing(record) =>
      Move(Unless(!ok, Put(record, TtlFromExpire(record.base.expireAt, s.clock), false)),
           Answered(record.shareId, Done))
    case CheckingOwner(id, user) =>
      if !ok then Move(Nothing, Answered(id, Failed(DbError)))
      else if !Visible(s, id) then Move(Nothing, Answered(id, Failed(NotFound)))
      else if s.rows[id].record.base.owner != user then Move(Nothing, Answered(id, Failed(Forbidden)))
      else Move(Nothing, DeletingRow(id))
    case DeletingRow(id) =>
      if !ok then Move(Nothing, Answered(id, Failed(DbError))) else Move(MarkDeleted(id), DroppingDeleted(id))
    case DroppingDeleted(id) => Move(Unless(!ok, Drop(id)), Answered(id, Done))
    case Answered(_, _) => Move(Nothing, c)
  }

  function Advance(s: State, call: nat, ok: bool): State
    requires call in s.calls
  {
    var move := NextMove(s, s.calls[call], ok);
    To(Do(s, move.effect), call, move.next)
  }

  function Begin(s: State, call: nat, valid: bool, id: string, first: Call): State {
    if call in s.calls then s
    else To(s, call, if valid then first else Answered(id, Failed(Rejected)))
  }

  function Step(s: State, a: Action): State {
    match a
    case Tick(elapsed) => s.(clock := s.clock + elapsed)
    case Vanish(key) => s.(kv := s.kv - {key})
    case Create(call, user, id, request) =>
      Begin(s, call, user != "" && |request.objectKeys| > 0, id,
            Inserting(NewRecord(user, id, request, s.clock), CreateTtl(ExpireAt(request, s.clock), s.clock)))
    case Read(call, id) => Begin(s, call, id != "", id, ReadingCache(id, Show))
    case EditPermissions(call, user, id, change) =>
      Begin(s, call, user != "" && id != "" && WellNamed(change), id, ReadingCache(id, Edit(user, change)))
    case Delete(call, user, id) => Begin(s, call, user != "" && id != "", id, CheckingOwner(id, user))
    case Continue(call, ok) => if call in s.calls then Advance(s, call, ok) else s
  }

  function Run(s: State, actions: seq<Action>): State {
    if |actions| == 0 then s
    else Step(Run(s, actions[..|actions| - 1]), actions[|actions| - 1])
  }

  // ---- what survives every interleaving ----

  /** A record that agrees with the row created under its ID on everything an edit may not touch. */
  ghost predicate Genuine(s: State, r: Record) {
    r.shareId in s.created && r.base == s.created[r.shareId].base
  }

  ghost predicate CallGenuine(s: State, c: Call) {
    match c
    case Inserting(r, ttl) => r.base.owner != "" && (ttl == 0 || ttl >= SECOND)
    case CachingNew(r, ttl) => Genuine(s, r) && (ttl == 0 || ttl >= SECOND)
    case Backfilling(id, r, _) => r.shareId == id && Genuine(s, r)
    case UpdatingDb(id, r) => r.shareId == id && Genuine(s, r)
    case Refreshing(r) => Genuine(s, r)
    case Answered(id, answer) => answer.Found? ==> answer.record.shareId == id && Genuine(s, answer.record)
    case _ => true
  }

  ghost predicate EntryGenuine(s: State, key: string) {
    key in s.kv ==>
      && ShareKey(s.kv[key].record.shareId) == key
      && Genuine(s, s.kv[key].record)
      && s.kv[key].written <= s.clock
      && (!s.kv[key].atCreation ==> s.kv[key].ttl == TtlFromExpire(s.kv[key].record.base.expireAt, s.kv[key].written))
  }

  ghost predicate RowGenuine(s: State, id: string) {
    && (id in s.created <==> id in s.rows)
    && (id in s.created ==> s.created[id].base.owner != "")
    && (id in s.rows ==> s.rows[id].record.shareId == id && Genuine(s, s.rows[id].record))
  }

  ghost predicate Inv(s: State) {
    && (forall id :: RowGenuine(s, id))
    && (forall key :: EntryGenuine(s, key))
    && (forall c | c in s.calls :: CallGenuine(s, s.calls[c]))
  }

  /** Rows are created once: the history only grows. */
  ghost predicate Extends(s: State, s': State) {
    && s.clock <= s'.clock
    && forall id | id in s.created :: id in s'.created && s'.created[id] == s.created[id]
  }

  ghost predicate EffectGenuine(s: State, e: Effect) {
    match e
    case Insert(r) => r.shareId !in s.created && r.base.owner != ""
    case Put(r, ttl, atCreation) =>
      Genuine(s, r) && (!atCreation ==> ttl == TtlFromExpire(r.base.expireAt, s.clock))
    case _ => true
  }

  lemma EffectExtends(s: State, e: Effect)
    requires EffectGenuine(s, e)
    ensures Extends(s, Do(s, e))
  {
  }

  lemma RowStays(s: State, e: Effect, id: string)
    requires RowGenuine(s, id) && EffectGenuine(s, e)
    ensures RowGenuine(Do(s, e), id)
  {
  }

  lemma EntryStays(s: State, e: Effect, key: string)
    requires EntryGenuine(s, key) && EffectGenuine(s, e)
    ensures EntryGenuine(Do(s, e), key)
  {
    EffectExtends(s, e);
  }

  lemma WithRecordGenuine(s: State, id: string, r: Record, purpose: Purpose)
    requires r.shareId == id && Genuine(s, r)
    ensures CallGenuine(s, WithRecord(id, r, purpose))
  {
  }

  lemma MoveGenuine(s: State, c: Call, ok: bool)
    requires Inv(s) && CallGenuine(s, c)
    ensures var move := NextMove(s, c, ok);
            EffectGenuine(s, move.effect) && CallGenuine(Do(s, move.effect), move.next)
  {
    var s' := Do(s, NextMove(s, c, ok).effect);
    match c {
      case Inserting(record, _) =>
        assert RowGenuine(s, record.shareId);
      case ReadingCache(id, purpose) =>
        assert EntryGenuine(s, ShareKey(id));
        if ShareKey(id) in s.kv {
          ShareKeyInjective(s.kv[ShareKey(id)].record.shareId, id);
          WithRecordGenuine(s', id, s.kv[ShareKey(id)].record, purpose);
        }
      case ReadingDb(id, _) =>
        assert RowGenuine(s, id);
      case Backfilling(id, record, purpose) =>
        WithRecordGenuine(s', id, record, purpose);
      case _ =>
    }
  }

  lemma GenuineGrows(s: State, s': State, c: Call)
    requires Extends(s, s') && CallGenuine(s, c)
    ensures CallGenuine(s', c)
  {
  }

  lemma DoKeepsCalls(s: State, e: Effect)
    ensures Do(s, e).calls == s.calls && Do(s, e).clock == s.clock
  {
  }

  lemma AdvanceKeepsInv(s: State, call: nat, ok: bool)
    requires Inv(s) && call in s.calls
    ensures Inv(Advance(s, call, ok)) && Extends(s, Advance(s, call, ok))
  {
    var s' := Advance(s, call, ok);
    assert CallGenuine(s, s.calls[call]);
    MoveGenuine(s, s.calls[call], ok);
    var move := NextMove(s, s.calls[call], ok);
    var done := Do(s, move.effect);
    DoKeepsCalls(s, move.effect);
    EffectExtends(s, move.effect);
    forall id
      ensures RowGenuine(s', id)
    {
      RowStays(s, move.effect, id);
      assert RowGenuine(done, id);
    }
    forall key
      ensures EntryGenuine(s', key)
    {
      EntryStays(s, move.effect, key);
      assert EntryGenuine(done, key);
    }
    forall c | c in s'.calls
      ensures CallGenuine(s', s'.calls[c])
    {
      if c == call {
        GenuineGrows(done, s', move.next);
      } else {
        GenuineGrows(s, s', s.calls[c]);
      }
    }
  }

  lemma BeginKeepsInv(s: State, call: nat, valid: bool, id: string, first: Call)
    requires Inv(s) && (valid ==> CallGenuine(s, first))
    ensures Inv(Begin(s, call, valid, id, first)) && Extends(s, Begin(s, call, valid, id, first))
  {
    var s' := Begin(s, call, valid, id, first);
    forall key
      ensures EntryGenuine(s', key)
    {
      assert EntryGenuine(s, key);
    }
    forall x
      ensures RowGenuine(s', x)
    {
      assert RowGenuine(s, x);
    }
    forall c | c in s'.calls
      ensures CallGenuine(s', s'.calls[c])
    {
      if c in s.calls {
        GenuineGrows(s, s', s.calls[c]);
      } else {
        GenuineGrows(s, s', s'.calls[c]);
      }
    }
  }

  lemma StepKeepsInv(s: State, a: Action)
    requires Inv(s)
    ensures Inv(Step(s, a)) && Extends(s, Step(s, a))
  {
    match a {
      case Create(call, user, id, request) =>
        BeginKeepsInv(s, call, user != "" && |request.objectKeys| > 0, id,
                      Inserting(NewRecord(user, id, request, s.clock), CreateTtl(ExpireAt(request, s.clock), s.clock)));
      case Read(call, id) =>
        BeginKeepsInv(s, call, id != "", id, ReadingCache(id, Show));
      case EditPermissions(call, user, id, change) =>
        BeginKeepsInv(s, call, user != "" && id != "" && WellNamed(change), id, ReadingCache(id, Edit(user, change)));
      case Delete(call, user, id) =>
        BeginKeepsInv(s, call, user != "" && id != "", id, CheckingOwner(id, user));
      case Continue(call, ok) =>
        if call in s.calls {
          AdvanceKeepsInv(s, call, ok);
        }
      case _ =>
        QuietKeepsInv(s, Step(s, a));
    }
  }

  /** Time passing and entries vanishing. */
  lemma QuietKeepsInv(s: State, s': State)
    requires Inv(s) && s.clock <= s'.clock && s'.rows == s.rows && s'.created == s.created && s'.calls == s.calls
    requires forall key | key in s'.kv :: key in s.kv && s'.kv[key] == s.kv[key]
    ensures Inv(s')
  {
    forall id
      ensures RowGenuine(s', id)
    {
      assert RowGenuine(s, id);
    }
    forall key
      ensures EntryGenuine(s', key)
    {
      assert EntryGenuine(s, key);
    }
    forall c | c in s'.calls
      ensures CallGenuine(s', s'.calls[c])
    {
      GenuineGrows(s, s', s.calls[c]);
    }
  }

  lemma {:induction false} RunKeepsInv(s: State, actions: seq<Action>)
    requires Inv(s)
    ensures Inv(Run(s, actions)) && Extends(s, Run(s, actions))
  {
    if |actions| > 0 {
      RunKeepsInv(s, actions[..|actions| - 1]);
      StepKeepsInv(Run(s, actions[..|actions| - 1]), actions[|actions| - 1]);
    }
  }

  lemma {:induction false} WrittenSinceStart(clock: int, actions: seq<Action>, key: string)
    requires key in Run(Start(clock), actions).kv
    ensures Run(Start(clock), actions).kv[key].written >= clock
  {
    if |actions| > 0 {
      var s, a := Run(Start(clock), actions[..|actions| - 1]), actions[|actions| - 1];
      RunKeepsInv(Start(clock), actions[..|actions| - 1]);
      EntryOldOrNew(s, a, key);
      if key in s.kv && Step(s, a).kv[key] == s.kv[key] {
        WrittenSinceStart(clock, actions[..|actions| - 1], key);
      }
    }
  }

  /** Entries are kept, dropped or written at this instant. */
  lemma EntryOldOrNew(s: State, a: Action, key: string)
    requires key in Step(s, a).kv
    ensures (key in s.kv && Step(s, a).kv[key] == s.kv[key]) || Step(s, a).kv[key].written == s.clock
  {
    if a.Continue? && a.call in s.calls {
      var move := NextMove(s, s.calls[a.call], a.ok);
      assert Step(s, a).kv == Do(s, move.effect).kv;
    }
  }

  /** Whatever the interleaving and whichever calls fail, a cached record and an answered record carry exactly the
      owner, keys, times, download flag and password hash of the row created under their ID, and that row is in the
      database to this day. */
  lemma CacheNeverForges(clock: int, actions: seq<Action>)
    ensures var s := Run(Start(clock), actions);
      && (forall key | key in s.kv :: var r := s.kv[key].record;
            ShareKey(r.shareId) == key && r.shareId in s.created && r.shareId in s.rows
            && r.base == s.created[r.shareId].base == s.rows[r.shareId].record.base)
      && (forall c | c in s.calls && s.calls[c].Answered? && s.calls[c].answer.Found? ::
            var r := s.calls[c].answer.record;
            r.shareId == s.calls[c].id && r.shareId in s.rows && r.base == s.rows[r.shareId].record.base)
  {
    var s := Run(Start(clock), actions);
    RunKeepsInv(Start(clock), actions);
    forall key | key in s.kv
      ensures var r := s.kv[key].record;
            ShareKey(r.shareId) == key && r.shareId in s.created && r.shareId in s.rows
            && r.base == s.created[r.shareId].base == s.rows[r.shareId].record.base
    {
      assert EntryGenuine(s, key);
      assert RowGenuine(s, s.kv[key].record.shareId);
    }
    forall c | c in s.calls && s.calls[c].Answered? && s.calls[c].answer.Found?
      ensures var r := s.calls[c].answer.record;
            r.shareId == s.calls[c].id && r.shareId in s.rows && r.base == s.rows[r.shareId].record.base
    {
      assert CallGenuine(s, s.calls[c]);
      assert RowGenuine(s, s.calls[c].answer.record.shareId);
    }
  }

  /** An entry not written by a creation is no longer served half an hour after it was written. */
  lemma StaleEntriesEnd(clock: int, actions: seq<Action>, key: string)
    requires clock >= SECOND
    requires var s := Run(Start(clock), actions); key in s.kv && !s.kv[key].atCreation
    requires var s := Run(Start(clock), actions);
      InStore(s.kv, key, s.clock) && !IsExpired(s.clock, s.kv[key].record.base.expireAt)
    ensures var s := Run(Start(clock), actions); s.clock < s.kv[key].written + CACHE_MAX_TTL
  {
    var s := Run(Start(clock), actions);
    RunKeepsInv(Start(clock), actions);
    WrittenSinceStart(clock, actions, key);
    assert EntryGenuine(s, key);
    CacheWindow(s.kv[key].record.base.expireAt, s.kv[key].written, s.clock);
  }

  lemma RunThen(s: State, actions: seq<Action>, a: Action)
    ensures Run(s, actions + [a]) == Step(Run(s, actions), a)
  {
    assert (actions + [a])[..|actions|] == actions;
  }

  lemma {:induction false} RunConcat(s: State, first: seq<Action>, second: seq<Action>)
    ensures Run(s, first + second) == Run(Run(s, first), second)
  {
    if |second| == 0 {
      assert first + second == first;
    } else {
      var front, a := second[..|second| - 1], second[|second| - 1];
      RunConcat(s, first, front);
      assert first + second == (first + front) + [a];
      RunThen(s, first + front, a);
    }
  }

  // ---- when a deleted share can still be found ----

  predicate Deleted(s: State, id: string) {
    id in s.rows && s.rows[id].deleted
  }

  predicate HasExpired(s: State, id: string)
    requires id in s.rows
  {
    IsExpired(s.clock, s.rows[id].record.base.expireAt)
  }

  /** A call that carries the share's record and goes on to cache it. */
  predicate Holds(c: Call, id: string) {
    match c
    case CachingNew(r, _) => r.shareId == id
    case Backfilling(other, _, _) => other == id
    case UpdatingDb(other, _) => other == id
    case Refreshing(r) => r.shareId == id
    case _ => false
  }

  ghost predicate SomeHolder(s: State, id: string) {
    exists c :: c in s.calls && Holds(s.calls[c], id)
  }

  /** The share has not expired, and an entry is still given out or a call is about to write one. */
  ghost predicate CanServe(s: State, id: string)
    requires id in s.rows
  {
    !HasExpired(s, id) && (InStore(s.kv, ShareKey(id), s.clock) || SomeHolder(s, id))
  }

  predicate Finds(c: Call, id: string) {
    c.Answered? && c.id == id && c.answer.Found?
  }

  /** A call begun in the continuation finds the share. */
  predicate FoundIn(s: State, future: seq<Action>, call: nat, id: string) {
    call !in s.calls && var t := Run(s, future); call in t.calls && Finds(t.calls[call], id)
  }

  ghost predicate ServedLater(s: State, id: string) {
    exists future, call :: FoundIn(s, future, call, id)
  }

  /** Only a call that holds the record, or one that meets a living entry, goes on to write, hold or find it. */
  lemma MoveNeedsSource(s: State, c: Call, ok: bool, id: string)
    requires Inv(s) && CallGenuine(s, c) && Deleted(s, id) && !Holds(c, id)
    requires HasExpired(s, id) || !InStore(s.kv, ShareKey(id), s.clock)
    ensures var move := NextMove(s, c, ok);
      && !Holds(move.next, id)
      && (Finds(move.next, id) ==> move.next == c)
      && (move.effect.Put? ==> move.effect.record.shareId != id)
  {
    assert RowGenuine(s, id);
    match c {
      case ReadingCache(other, purpose) =>
        assert EntryGenuine(s, ShareKey(other));
        if ShareKey(other) in s.kv {
          ShareKeyInjective(s.kv[ShareKey(other)].record.shareId, other);
        }
      case _ =>
    }
  }

  lemma EffectOnDeleted(s: State, e: Effect, id: string)
    requires EffectGenuine(s, e) && RowGenuine(s, id) && Deleted(s, id)
    ensures id in Do(s, e).rows && Do(s, e).rows[id] == s.rows[id]
    ensures (e.Put? ==> e.record.shareId != id) && InStore(Do(s, e).kv, ShareKey(id), s.clock)
            ==> InStore(s.kv, ShareKey(id), s.clock)
  {
    if e.Put? && ShareKey(e.record.shareId) == ShareKey(id) {
      ShareKeyInjective(e.record.shareId, id);
    }
  }

  /** No call but those of `olds` holds or has found the share. */
  ghost predicate NoneNew(olds: set<nat>, s: State, id: string) {
    forall c | c in s.calls && c !in olds :: !Holds(s.calls[c], id) && !Finds(s.calls[c], id)
  }

  ghost predicate Quiet(olds: set<nat>, s: State, id: string) {
    Inv(s) && Deleted(s, id) && !CanServe(s, id) && NoneNew(olds, s, id)
  }

  lemma AdvanceStaysQuiet(olds: set<nat>, s: State, call: nat, ok: bool, id: string)
    requires Quiet(olds, s, id) && call in s.calls
    ensures var t := Advance(s, call, ok);
      Deleted(t, id) && t.rows[id] == s.rows[id] && !CanServe(t, id) && NoneNew(olds, t, id)
  {
    var c := s.calls[call];
    var move := NextMove(s, c, ok);
    var t := Advance(s, call, ok);
    assert CallGenuine(s, c) && RowGenuine(s, id);
    MoveGenuine(s, c, ok);
    EffectOnDeleted(s, move.effect, id);
    DoKeepsCalls(s, move.effect);
    assert Holds(c, id) ==> SomeHolder(s, id);
    if !Holds(c, id) {
      MoveNeedsSource(s, c, ok, id);
    }
    HolderBefore(s, t, call, id);
  }

  lemma HolderBefore(s: State, t: State, call: nat, id: string)
    requires call in s.calls && t.calls.Keys == s.calls.Keys
    requires forall c | c in s.calls && c != call :: t.calls[c] == s.calls[c]
    requires Holds(t.calls[call], id) ==> Holds(s.calls[call], id)
    ensures SomeHolder(t, id) ==> SomeHolder(s, id)
  {
    if c :| c in t.calls && Holds(t.calls[c], id) {
      assert Holds(s.calls[c], id);
    }
  }

  lemma TickStaysQuiet(s: State, elapsed: nat, id: string)
    requires Deleted(s, id) && !CanServe(s, id)
    ensures !CanServe(s.(clock := s.clock + elapsed), id)
  {
    var t := s.(clock := s.clock + elapsed);
    assert SomeHolder(t, id) ==> SomeHolder(s, id);
  }

  lemma BeginStaysQuiet(olds: set<nat>, s: State, call: nat, valid: bool, other: string, first: Call, id: string)
    requires Quiet(olds, s, id) && !Holds(first, id) && !Finds(first, id)
    ensures var t := Begin(s, call, valid, other, first);
      Deleted(t, id) && t.rows[id] == s.rows[id] && !CanServe(t, id) && NoneNew(olds, t, id)
  {
    var t := Begin(s, call, valid, other, first);
    if SomeHolder(t, id) {
      var d :| d in t.calls && Holds(t.calls[d], id);
      assert d in s.calls && Holds(s.calls[d], id);
    }
  }

  lemma VanishStaysQuiet(s: State, key: string, id: string)
    requires Deleted(s, id) && !CanServe(s, id)
    ensures !CanServe(s.(kv := s.kv - {key}), id)
  {
    assert SomeHolder(s.(kv := s.kv - {key}), id) ==> SomeHolder(s, id);
  }

  lemma StepStaysQuiet(olds: set<nat>, s: State, a: Action, id: string)
    requires Quiet(olds, s, id)
    ensures Quiet(olds, Step(s, a), id)
  {
    StepKeepsInv(s, a);
    match a {
      case Tick(elapsed) =>
        TickStaysQuiet(s, elapsed, id);
      case Vanish(key) =>
        VanishStaysQuiet(s, key, id);
      case Create(call, user, other, request) =>
        BeginStaysQuiet(olds, s, call, user != "" && |request.objectKeys| > 0, other,
                        Inserting(NewRecord(user, other, request, s.clock),
                                  CreateTtl(ExpireAt(request, s.clock), s.clock)), id);
      case Read(call, other) =>
        BeginStaysQuiet(olds, s, call, other != "", other, ReadingCache(other, Show), id);
      case EditPermissions(call, user, other, change) =>
        BeginStaysQuiet(olds, s, call, user != "" && other != "" && WellNamed(change), other,
                        ReadingCache(other, Edit(user, change)), id);
      case Delete(call, user, other) =>
        BeginStaysQuiet(olds, s, call, user != "" && other != "", other, CheckingOwner(other, user), id);
      case Continue(call, ok) =>
        if call in s.calls {
          AdvanceStaysQuiet(olds, s, call, ok, id);
        }
    }
  }

  lemma {:induction false} RunStaysQuiet(olds: set<nat>, s: State, future: seq<Action>, id: string)
    requires Quiet(olds, s, id)
    ensures Quiet(olds, Run(s, future), id)
  {
    if |future| > 0 {
      RunStaysQuiet(olds, s, future[..|future| - 1], id);
      StepStaysQuiet(olds, Run(s, future[..|future| - 1]), future[|future| - 1], id);
    }
  }

  lemma {:induction false} FreshCall(calls: set<nat>) returns (next: nat)
    ensures forall c | c in calls :: c < next
    decreases |calls|
  {
    if calls == {} {
      next := 0;
    } else {
      var call :| call in calls;
      var above := FreshCall(calls - {call});
      next := if call < above then above else call + 1;
      assert forall c | c in calls :: c == call || c in calls - {call};
    }
  }

  lemma EntryServes(s: State, id: string) returns (future: seq<Action>, call: nat)
    requires Inv(s) && id != "" && id in s.rows && !HasExpired(s, id) && InStore(s.kv, ShareKey(id), s.clock)
    ensures FoundIn(s, future, call, id)
  {
    call := FreshCall(s.calls.Keys);
    assert EntryGenuine(s, ShareKey(id)) && RowGenuine(s, id);
    ShareKeyInjective(s.kv[ShareKey(id)].record.shareId, id);
    RunThen(s, [], Read(call, id));
    assert [] + [Read(call, id)] == [Read(call, id)];
    RunThen(s, [Read(call, id)], Continue(call, true));
    future := [Read(call, id)] + [Continue(call, true)];
    var begun := Step(s, Read(call, id));
    assert begun == s.(calls := s.calls[call := ReadingCache(id, Show)]);
  }

  /** A record on its way to the cache arrives there alive when it is written at the right moment: now for a new
      share, at the very instant of its expiry for another. */
  lemma HolderCaches(s: State, call: nat, id: string) returns (future: seq<Action>)
    requires Inv(s) && id in s.rows && !HasExpired(s, id) && call in s.calls && Holds(s.calls[call], id)
    ensures var t := Run(s, future);
      && id in t.rows && !HasExpired(t, id) && InStore(t.kv, ShareKey(id), t.clock) && s.calls.Keys <= t.calls.Keys
  {
    assert CallGenuine(s, s.calls[call]) && RowGenuine(s, id);
    match s.calls[call] {
      case CachingNew(r, ttl) =>
        future := [Continue(call, true)];
        RunThen(s, [], Continue(call, true));
        assert [] + future == future;
      case UpdatingDb(_, r) =>
        var t := Step(s, Continue(call, true));
        StepKeepsInv(s, Continue(call, true));
        assert t.calls[call] == Refreshing(r) && CallGenuine(t, t.calls[call]) && RowGenuine(t, id);
        future := HolderWaits(t, call, id);
        RunThen(s, [], Continue(call, true));
        assert [] + [Continue(call, true)] == [Continue(call, true)];
        RunConcat(s, [Continue(call, true)], future);
        future := [Continue(call, true)] + future;
      case _ =>
        future := HolderWaits(s, call, id);
    }
  }

  lemma HolderWaits(s: State, call: nat, id: string) returns (future: seq<Action>)
    requires id in s.rows && !HasExpired(s, id)
    requires call in s.calls && (s.calls[call].Backfilling? || s.calls[call].Refreshing?)
    requires var r := s.calls[call].record; r.shareId == id && r.base == s.rows[id].record.base
    ensures var t := Run(s, future);
      && id in t.rows && !HasExpired(t, id) && InStore(t.kv, ShareKey(id), t.clock) && s.calls.Keys <= t.calls.Keys
  {
    var expireAt := s.rows[id].record.base.expireAt;
    var wait: nat := if expireAt.Some? then expireAt.value - s.clock else 0;
    RunThen(s, [], Tick(wait));
    assert [] + [Tick(wait)] == [Tick(wait)];
    RunThen(s, [Tick(wait)], Continue(call, true));
    future := [Tick(wait)] + [Continue(call, true)];
    WrittenAtLastMoment(expireAt, s.clock + wait);
    HolderPuts(Step(s, Tick(wait)), call);
  }

  lemma HolderPuts(s: State, call: nat)
    requires call in s.calls && (s.calls[call].Backfilling? || s.calls[call].Refreshing?)
    ensures var r := s.calls[call].record; var t := Step(s, Continue(call, true));
      && t.kv == s.kv[ShareKey(r.shareId) := Cached(r, TtlFromExpire(r.base.expireAt, s.clock), s.clock, false)]
      && t.rows == s.rows && t.clock == s.clock && t.calls.Keys == s.calls.Keys
  {
  }

  lemma WrittenAtLastMoment(expireAt: Option<int>, now: int)
    requires expireAt.Some? ==> expireAt.value == now
    ensures Alive(TtlFromExpire(expireAt, now), now, now)
  {
  }

  /** A deleted share is found again by some later call, in some continuation, if and only if it has not expired and
      an entry of it is still given out or some call still carries its record towards the cache. */
  lemma DeletedShareServedIff(clock: int, actions: seq<Action>, id: string)
    requires id != "" && Deleted(Run(Start(clock), actions), id)
    ensures ServedLater(Run(Start(clock), actions), id) <==> CanServe(Run(Start(clock), actions), id)
  {
    var s := Run(Start(clock), actions);
    RunKeepsInv(Start(clock), actions);
    if CanServe(s, id) {
      if InStore(s.kv, ShareKey(id), s.clock) {
        var future, call := EntryServes(s, id);
      } else {
        var holder :| holder in s.calls && Holds(s.calls[holder], id);
        var cached := HolderCaches(s, holder, id);
        RunKeepsInv(s, cached);
        var read, call := EntryServes(Run(s, cached), id);
        RunConcat(s, cached, read);
        assert FoundIn(s, cached + read, call, id);
      }
    } else {
      forall future, call
        ensures !FoundIn(s, future, call, id)
      {
        RunStaysQuiet(s.calls.Keys, s, future, id);
      }
    }
  }

  /** Editing a deleted share that is still cached works and writes its entry anew, so the half hour starts again. */
  lemma EditRevives(s: State, call: nat, id: string, change: Change)
    requires Inv(s) && id != "" && Deleted(s, id) && !HasExpired(s, id) && InStore(s.kv, ShareKey(id), s.clock)
    requires call !in s.calls && WellNamed(change)
    ensures var owner := s.rows[id].record.base.owner;
            var stale := s.kv[ShareKey(id)].record;
            var edited := stale.(permissions := Apply(change, stale.permissions));
            var t := Run(s, [EditPermissions(call, owner, id, change), Continue(call, true), Continue(call, true),
                             Continue(call, true)]);
      t == s.(kv := s.kv[ShareKey(id) := Cached(edited, TtlFromExpire(stale.base.expireAt, s.clock), s.clock, false)],
              calls := s.calls[call := Answered(id, Done)])
  {
    var owner := s.rows[id].record.base.owner;
    var stale := s.kv[ShareKey(id)].record;
    var edited := stale.(permissions := Apply(change, stale.permissions));
    var edit, go := EditPermissions(call, owner, id, change), Continue(call, true);
    RunThen(s, [], edit);
    assert [] + [edit] == [edit];
    RunThen(s, [edit], go);
    assert [edit] + [go] == [edit, go];
    RunThen(s, [edit, go], go);
    assert [edit, go] + [go] == [edit, go, go];
    RunThen(s, [edit, go, go], go);
    assert [edit, go, go] + [go] == [edit, go, go, go];
    EditMeetsEntry(s, call, id, change);
    EditRewrites(s, call, id, edited);
  }

  lemma EditMeetsEntry(s: State, call: nat, id: string, change: Change)
    requires Inv(s) && id != "" && Deleted(s, id) && !HasExpired(s, id) && InStore(s.kv, ShareKey(id), s.clock)
    requires call !in s.calls && WellNamed(change)
    ensures var owner := s.rows[id].record.base.owner;
            var stale := s.kv[ShareKey(id)].record;
      && stale.shareId == id && stale.base == s.rows[id].record.base
      && Step(Step(s, EditPermissions(call, owner, id, change)), Continue(call, true))
         == To(s, call, UpdatingDb(id, stale.(permissions := Apply(change, stale.permissions))))
  {
    assert EntryGenuine(s, ShareKey(id)) && RowGenuine(s, id);
    ShareKeyInjective(s.kv[ShareKey(id)].record.shareId, id);
    var owner := s.rows[id].record.base.owner;
    assert Step(s, EditPermissions(call, owner, id, change)) == To(s, call, ReadingCache(id, Edit(owner, change)));
  }

  lemma EditRewrites(s: State, call: nat, id: string, edited: Record)
    requires Deleted(s, id) && edited.shareId == id
    ensures Step(Step(To(s, call, UpdatingDb(id, edited)), Continue(call, true)), Continue(call, true))
         == s.(kv := s.kv[ShareKey(id) := Cached(edited, TtlFromExpire(edited.base.expireAt, s.clock), s.clock, false)],
               calls := s.calls[call := Answered(id, Done)])
  {
    assert Step(To(s, call, UpdatingDb(id, edited)), Continue(call, true)) == To(s, call, Refreshing(edited));
  }

  /** So a stale entry of a deleted share without expiry can be kept alive for as long as one likes. */
  lemma {:induction false} StaleEntryLastsForever(s: State, id: string, span: nat) returns (future: seq<Action>)
    requires Inv(s) && id != "" && Deleted(s, id) && InStore(s.kv, ShareKey(id), s.clock)
    requires s.rows[id].record.base.expireAt.None?
    ensures var t := Run(s, future);
      Deleted(t, id) && InStore(t.kv, ShareKey(id), t.clock) && t.clock >= s.clock + span
    decreases span
  {
    if span == 0 {
      future := [];
    } else {
      var call := FreshCall(s.calls.Keys);
      var change := Replace(true, []);
      var owner := s.rows[id].record.base.owner;
      var round := [EditPermissions(call, owner, id, change), Continue(call, true), Continue(call, true),
                    Continue(call, true)];
      EditRevives(s, call, id, change);
      assert EntryGenuine(s, ShareKey(id)) && RowGenuine(s, id);
      ShareKeyInjective(s.kv[ShareKey(id)].record.shareId, id);
      RunThen(s, round, Tick(MINUTE));
      var t := Run(s, round + [Tick(MINUTE)]);
      RunKeepsInv(s, round + [Tick(MINUTE)]);
      ExpiryWindow(CACHE_DEFAULT_TTL, s.clock, s.clock + MINUTE);
      var rest := StaleEntryLastsForever(t, id, if span <= MINUTE then 0 else span - MINUTE);
      RunConcat(s, round + [Tick(MINUTE)], rest);
      future := round + [Tick(MINUTE)] + rest;
    }
  }

  // ---- what does not survive ----

  /** A deletion that runs between the row and the cache entry of a creation leaves a deleted share in the cache;
      for a share without expiry that entry never dies, so reads find the share however much later. */
  lemma DeletedShareServedForever(clock: int, user: string, id: string, request: CreateRequest, later: nat)
    returns (actions: seq<Action>)
    requires user != "" && id != "" && |request.objectKeys| > 0 && request.expireDays <= 0
    ensures var s := Run(Start(clock), actions);
      && s.clock == clock + later
      && id in s.rows && s.rows[id].deleted
      && s.calls.Keys == {0, 1, 2} && s.calls[2] == Answered(id, Found(NewRecord(user, id, request, clock)))
  {
    var r := NewRecord(user, id, request, clock);
    actions := CreateHalfway(clock, user, id, request);
    actions := DeleteBetween(clock, actions, user, id, r);
    var s := Run(Start(clock), actions);
    var cached := s.(kv := map[ShareKey(id) := Cached(r, 0, clock, true)],
                     calls := s.calls[0 := Answered(id, Found(r))]);
    RunThen(Start(clock), actions, Continue(0, true));
    assert Step(s, Continue(0, true)) == cached;
    actions := actions + [Continue(0, true)];
    RunThen(Start(clock), actions, Tick(later));
    actions := actions + [Tick(later)];
    RunThen(Start(clock), actions, Read(2, id));
    actions := actions + [Read(2, id)];
    RunThen(Start(clock), actions, Continue(2, true));
    actions := actions + [Continue(2, true)];
    ReadHits(cached, later, id);
  }

  lemma CreateHalfway(clock: int, user: string, id: string, request: CreateRequest) returns (actions: seq<Action>)
    requires user != "" && |request.objectKeys| > 0 && request.expireDays <= 0
    ensures var r := NewRecord(user, id, request, clock);
      Run(Start(clock), actions)
      == State(map[id := Row(r, false)], map[], map[0 := CachingNew(r, 0)], map[id := r], clock)
  {
    var create := Create(0, user, id, request);
    RunThen(Start(clock), [], create);
    assert [] + [create] == [create];
    RunThen(Start(clock), [create], Continue(0, true));
    actions := [create] + [Continue(0, true)];
    var r := NewRecord(user, id, request, clock);
    assert Step(Start(clock), create) == To(Start(clock), 0, Inserting(r, 0));
    RowInserted(clock, r);
  }

  lemma RowInserted(clock: int, r: Record)
    ensures Step(To(Start(clock), 0, Inserting(r, 0)), Continue(0, true))
         == State(map[r.shareId := Row(r, false)], map[], map[0 := CachingNew(r, 0)], map[r.shareId := r], clock)
  {
  }

  lemma DeleteBetween(clock: int, before: seq<Action>, user: string, id: string, r: Record)
    returns (actions: seq<Action>)
    requires user != "" && id != "" && r.base.owner == user
    requires Run(Start(clock), before)
          == State(map[id := Row(r, false)], map[], map[0 := CachingNew(r, 0)], map[id := r], clock)
    ensures Run(Start(clock), actions) == State(map[id := Row(r, true)], map[],
              map[0 := CachingNew(r, 0), 1 := Answered(id, Done)], map[id := r], clock)
  {
    var s := Run(Start(clock), before);
    var begun := before + [Delete(1, user, id)];
    var checked := begun + [Continue(1, true)];
    var deleted := checked + [Continue(1, true)];
    actions := deleted + [Continue(1, true)];
    RunThen(Start(clock), before, Delete(1, user, id));
    RunThen(Start(clock), begun, Continue(1, true));
    RunThen(Start(clock), checked, Continue(1, true));
    RunThen(Start(clock), deleted, Continue(1, true));
    OwnerChecked(s, user, id, r);
    RowDeleted(s, id, r);
    EntryDropped(s.(rows := map[id := Row(r, true)]), id);
  }

  lemma EntryDropped(s: State, id: string)
    requires s.kv == map[]
    ensures Step(To(s, 1, DroppingDeleted(id)), Continue(1, true)) == To(s, 1, Answered(id, Done))
  {
  }

  lemma OwnerChecked(s: State, user: string, id: string, r: Record)
    requires user != "" && id != "" && 1 !in s.calls && r.base.owner == user && s.rows == map[id := Row(r, false)]
    ensures Step(Step(s, Delete(1, user, id)), Continue(1, true)) == To(s, 1, DeletingRow(id))
  {
    assert Step(s, Delete(1, user, id)) == To(s, 1, CheckingOwner(id, user));
  }

  lemma RowDeleted(s: State, id: string, r: Record)
    requires s.rows == map[id := Row(r, false)]
    ensures Step(To(s, 1, DeletingRow(id)), Continue(1, true))
         == To(s.(rows := map[id := Row(r, true)]), 1, DroppingDeleted(id))
  {
  }

  lemma ReadHits(s: State, later: nat, id: string)
    requires id != "" && 2 !in s.calls
    requires ShareKey(id) in s.kv && s.kv[ShareKey(id)].ttl == 0 && s.kv[ShareKey(id)].record.base.expireAt.None?
    ensures Step(Step(Step(s, Tick(later)), Read(2, id)), Continue(2, true))
         == s.(clock := s.clock + later, calls := s.calls[2 := Answered(id, Found(s.kv[ShareKey(id)].record))])
  {
    var s2 := Step(Step(s, Tick(later)), Read(2, id));
    assert s2.calls[2] == ReadingCache(id, Show);
  }
}
