/** Capturing a response body while it is sent, storing it, and replaying it. */
module ResponseCache {
  import opened Bytes
  import opened Envelope
  import opened CacheLayer

  function Joined(chunks: seq<seq<Byte>>): seq<Byte> {
    if |chunks| == 0 then [] else Joined(chunks[..|chunks| - 1]) + chunks[|chunks| - 1]
  }

  /** Whether a chunk that arrives after `sent` bytes overruns the limit; any chunk does once the limit is reached. */
  predicate Overruns(max: int, sent: nat, chunk: seq<Byte>) {
    max != 0 && (sent >= max || sent + |chunk| > max)
  }

  ghost predicate SomeOverrun(max: int, chunks: seq<seq<Byte>>) {
    exists i :: 0 <= i < |chunks| && Overruns(max, |Joined(chunks[..i])|, chunks[i])
  }

  /** What a capture holds of the chunks written so far: everything, or the first `max` bytes. */
  function Captured(max: int, chunks: seq<seq<Byte>>): seq<Byte> {
    var all := Joined(chunks);
    if max == 0 || |all| <= max then all else if max < 0 then [] else all[..max]
  }

  class BodyCaptureWriter {
    const max: int
    var buf: seq<Byte>
    var truncated: bool
    var client: seq<Byte>
    ghost var chunks: seq<seq<Byte>>

    ghost predicate Valid()
      reads this
    {
      && client == Joined(chunks)
      && buf == Captured(max, chunks)
      && (truncated <==> SomeOverrun(max, chunks))
      && (truncated ==> max != 0 && |client| >= max)
      && (!truncated ==> buf == client)
    }

    constructor (max: int)
      ensures Valid() && this.max == max && chunks == [] && client == []
    {
      this.max := max;
      buf, truncated, client, chunks := [], false, [], [];
    }

    /** The wrapped writer, when it accepts the bytes. */
    method Forward(b: seq<Byte>)
      modifies this`client
      ensures client == old(client) + b
    {
      client := client + b;
    }

    /** All bytes reach the client; the capture is its longest prefix within the limit. */
    method Write(b: seq<Byte>)
      requires Valid()
      modifies this
      ensures Valid() && chunks == old(chunks) + [b] && client == old(client) + b
    {
      ChunkAdded(max, chunks, b);
      chunks := chunks + [b];
      if max == 0 {
        buf := buf + b;
        Forward(b);
        return;
      }
      if truncated {
        Forward(b);
        return;
      }
      var remain := max - |buf|;
      if remain <= 0 {
        truncated := true;
        Forward(b);
        return;
      }
      if |b| > remain {
        buf := buf + b[..remain];
        truncated := true;
      } else {
        buf := buf + b;
      }
      Forward(b);
    }
  }

  lemma ChunkAdded(max: int, chunks: seq<seq<Byte>>, b: seq<Byte>)
    ensures Joined(chunks + [b]) == Joined(chunks) + b
    ensures SomeOverrun(max, chunks + [b]) <==> SomeOverrun(max, chunks) || Overruns(max, |Joined(chunks)|, b)
  {
    var more := chunks + [b];
    assert more[..|chunks|] == chunks;
    assert more[..|more| - 1] == chunks;
    forall i | 0 <= i < |chunks|
      ensures Overruns(max, |Joined(more[..i])|, more[i]) <==> Overruns(max, |Joined(chunks[..i])|, chunks[i])
    {
      assert more[..i] == chunks[..i];
    }
    if SomeOverrun(max, more) {
      var i :| 0 <= i < |more| && Overruns(max, |Joined(more[..i])|, more[i]);
      if i < |chunks| {
        assert Overruns(max, |Joined(chunks[..i])|, chunks[i]);
      }
    }
    if SomeOverrun(max, chunks) {
      var i :| 0 <= i < |chunks| && Overruns(max, |Joined(chunks[..i])|, chunks[i]);
      assert Overruns(max, |Joined(more[..i])|, more[i]);
    }
    if Overruns(max, |Joined(chunks)|, b) {
      assert Overruns(max, |Joined(more[..|chunks|])|, more[|chunks|]);
    }
  }

  // ---- storing and replaying ----

  /** A header may have any number of values; the names are canonical. */
  type Headers = map<string, seq<string>>

  /** What is stored keeps one value a header. */
  datatype Entry = Entry(status: int, header: map<string, string>, body: seq<Byte>, etag: string, storedAt: int)

  datatype Response = Response(status: int, header: Headers, body: seq<Byte>)

  /** What the response's Cache-Control header says: a lifetime that overrides the default one if positive, and
      whether storing is allowed at all. */
  datatype CacheControl = CacheControl(ttl: int, allowed: bool)

  datatype Config = Config(ttl: int, statuses: set<int>, respectCacheControl: bool, ttlFunc: Option<int>)

  function ChosenTtl(cfg: Config, cc: CacheControl): int {
    match cfg.ttlFunc
    case Some(t) => t
    case None => if cfg.respectCacheControl && cc.ttl > 0 then cc.ttl else cfg.ttl
  }

  predicate Storable(cfg: Config, status: int, truncated: bool, cc: CacheControl) {
    status in cfg.statuses && !truncated && (cfg.respectCacheControl ==> cc.allowed) && ChosenTtl(cfg, cc) > 0
  }

  /** The first value of a header, or the empty string. */
  function GetHeader(header: Headers, name: string): string {
    if name in header && |header[name]| > 0 then header[name][0] else ""
  }

  function FirstValues(header: Headers): map<string, string> {
    map h | h in header && |header[h]| > 0 :: header[h][0]
  }

  function NewEntry(status: int, header: Headers, body: seq<Byte>, hash: seq<Byte> -> string, now: int): Entry {
    var etag := if GetHeader(header, "ETag") != "" then GetHeader(header, "ETag") else hash(body);
    Entry(status, FirstValues(header)["ETag" := etag], body, etag, now)
  }

  /** An entry holds the status, the whole body, the first value of every header with one, and an ETag: the response's
      own, or else a hash of the body. */
  ghost predicate FromResponse(e: Entry, status: int, header: Headers, body: seq<Byte>, hash: seq<Byte> -> string,
                               now: int) {
    && e.status == status && e.body == body && e.storedAt == now
    && (if "ETag" in header && |header["ETag"]| > 0 && header["ETag"][0] != "" then e.etag == header["ETag"][0]
        else e.etag == hash(body))
    && "ETag" in e.header && e.header["ETag"] == e.etag
    && (forall h | h != "ETag" :: h in e.header <==> h in header && |header[h]| > 0)
    && forall h | h != "ETag" && h in e.header :: e.header[h] == header[h][0]
  }

  /** Stores the finished response unless its status, size or Cache-Control forbids it. */
  method ProcessAndStore(cache: Cache<Entry>, cfg: Config, key: string, w: BodyCaptureWriter, status: int,
                         header: Headers, cc: CacheControl, hash: seq<Byte> -> string, now: int)
    returns (stored: bool)
    requires w.Valid()
    modifies cache
    ensures cache.failures >= old(cache.failures)
    ensures stored <==> Storable(cfg, status, SomeOverrun(w.max, w.chunks), cc) && cache.failures == old(cache.failures)
    ensures stored ==> cache.items == old(cache.items)[key :=
           NewItem(cache.useLocalTTL, NewEntry(status, header, Joined(w.chunks), hash, now), ChosenTtl(cfg, cc), now)]
    ensures !stored ==> cache.items == old(cache.items)
    ensures var ttl := if cfg.ttlFunc.Some? then cfg.ttlFunc.value
                       else if cfg.respectCacheControl && cc.ttl > 0 then cc.ttl else cfg.ttl;
      && (stored <==> && cache.failures == old(cache.failures)
                      && status in cfg.statuses && !w.truncated && (cfg.respectCacheControl ==> cc.allowed) && ttl > 0)
      && (stored ==> key in cache.items && cache.items[key].ttl == ttl)
    ensures stored ==> key in cache.items && FromResponse(cache.items[key].value, status, header, w.client, hash, now)
  {
    if status !in cfg.statuses || w.truncated {
      return false;
    }
    var ttl := cfg.ttl;
    if cfg.respectCacheControl {
      if !cc.allowed {
        return false;
      }
      if cc.ttl > 0 && cfg.ttlFunc.None? {
        ttl := cc.ttl;
      }
    }
    if cfg.ttlFunc.Some? {
      ttl := cfg.ttlFunc.value;
    }
    if ttl <= 0 {
      return false;
    }
    stored := cache.Set(key, NewEntry(status, header, w.buf, hash, now), ttl, now);
  }

  const NOT_MODIFIED := 304

  /** Every stored header with its one value, the ETag, the age in words, and the mark of a hit. */
  function ReplayedHeaders(e: Entry, age: string): Headers {
    var stored := map h | h in e.header :: [e.header[h]];
    (if e.etag != "" then stored["ETag" := [e.etag]] else stored)["Age" := [age]]["X-Cache" := ["HIT"]]
  }

  function Replay(e: Entry, isHead: bool, ifNoneMatch: string, age: string): Response {
    if e.etag != "" && ifNoneMatch == e.etag then Response(NOT_MODIFIED, ReplayedHeaders(e, age), [])
    else Response(e.status, ReplayedHeaders(e, age), if isHead then [] else e.body)
  }

  /** The headers a hit sets itself. */
  const OWN_HEADERS := {"ETag", "Age", "X-Cache"}

  /** A hit replays status and body, without the body for HEAD, or answers a matching ETag with 304 and no body; either
      way with the stored headers. */
  method ServeFromCache(cache: Cache<Entry>, key: string, isHead: bool, ifNoneMatch: string,
                        ageText: int -> string, now: int)
    returns (r: Option<Response>)
    modifies cache
    ensures SameReads(cache.useLocalTTL, old(cache.items), cache.items, now)
    ensures r.Some? ==>
      key in old(cache.items)
      && var e := old(cache.items)[key].value;
      && r.value == Replay(e, isHead, ifNoneMatch, ageText(now - e.storedAt))
      && (if e.etag != "" && ifNoneMatch == e.etag then r.value.status == 304 && r.value.body == []
          else r.value.status == e.status && r.value.body == if isHead then [] else e.body)
      && var h := r.value.header;
      && "Age" in h && h["Age"] == [ageText(now - e.storedAt)] && "X-Cache" in h && h["X-Cache"] == ["HIT"]
      && (e.etag != "" ==> "ETag" in h && h["ETag"] == [e.etag])
      && (forall n | n in e.header && n !in OWN_HEADERS :: n in h && h[n] == [e.header[n]])
      && (forall n | n in h && n !in OWN_HEADERS :: n in e.header)
    ensures cache.failures >= old(cache.failures)
    ensures cache.failures == old(cache.failures) ==>
      (r.Some? <==> Read(old(cache.items), cache.useLocalTTL, key, now).Some?)
  {
    var entry := cache.Get(key, now);
    if entry.None? {
      return None;
    }
    return Some(Replay(entry.value, isHead, ifNoneMatch, ageText(now - entry.value.storedAt)));
  }

  /** A header of the first response comes back whole if and only if it has exactly one value; no other is added. */
  lemma ReplayedWholeIff(status: int, header: Headers, body: seq<Byte>, hash: seq<Byte> -> string, now: int,
                         isHead: bool, ifNoneMatch: string, age: string, h: string)
    requires h !in OWN_HEADERS
    ensures var replayed := Replay(NewEntry(status, header, body, hash, now), isHead, ifNoneMatch, age).header;
      && (h in header ==> (h in replayed && replayed[h] == header[h] <==> |header[h]| == 1))
      && (h in replayed ==> h in header && |header[h]| > 0 && replayed[h] == [header[h][0]])
  {
    assert h != "ETag" && h != "Age" && h != "X-Cache";
  }

  /** A handler writing any chunks through a fresh capture. */
  method CaptureAll(max: int, chunks: seq<seq<Byte>>) returns (w: BodyCaptureWriter)
    ensures fresh(w) && w.Valid() && w.max == max && w.chunks == chunks
  {
    w := new BodyCaptureWriter(max);
    for i := 0 to |chunks|
      invariant w.Valid() && w.max == max && w.chunks == chunks[..i] && fresh(w)
    {
      assert chunks[..i + 1] == chunks[..i] + [chunks[i]];
      w.Write(chunks[i]);
    }
    assert chunks[..|chunks|] == chunks;
  }

  /** What other requests and the cleanup do with the cache. */
  datatype CacheCall =
    | Ask(key: string, at: int)
    | Store(key: string, entry: Entry, ttl: int, at: int)
    | Drop(key: string)
    | Sweep(keys: seq<string>, from: int, to: int)

  /** Asking for the key and sweeping it are no harm; storing and dropping it are. */
  predicate LeavesAlone(call: CacheCall, key: string, later: int) {
    match call
    case Ask(_, at) => at <= later
    case Store(k, _, _, _) => k != key
    case Drop(k) => k != key
    case Sweep(_, from, to) => from <= to <= later
  }

  method OtherCalls(cache: Cache<Entry>, calls: seq<CacheCall>, key: string, later: int)
    requires forall i | 0 <= i < |calls| :: LeavesAlone(calls[i], key, later)
    modifies cache
    ensures cache.failures >= old(cache.failures)
    ensures key in cache.items ==> key in old(cache.items) && cache.items[key] == old(cache.items)[key]
    ensures Read(cache.items, cache.useLocalTTL, key, later) == Read(old(cache.items), cache.useLocalTTL, key, later)
  {
    for i := 0 to |calls|
      invariant cache.failures >= old(cache.failures)
      invariant key in cache.items ==> key in old(cache.items) && cache.items[key] == old(cache.items)[key]
      invariant Read(cache.items, cache.useLocalTTL, key, later)
             == Read(old(cache.items), cache.useLocalTTL, key, later)
    {
      assert LeavesAlone(calls[i], key, later);
      match calls[i] {
        case Ask(k, at) =>
          var _ := cache.Get(k, at);
        case Store(k, entry, ttl, at) =>
          var _ := cache.Set(k, entry, ttl, at);
        case Drop(k) =>
          var _ := cache.StoreDelete(k);
        case Sweep(keys, from, to) =>
          cache.RunCleanupOnce(keys, from, to);
      }
    }
  }

  /** Two requests for one key with any calls in between that neither store nor drop it: if the first client's response
      was stored and then hit, the second client gets the same status and, except for HEAD or a matching ETag, the same
      body; and it is hit up to a second before its lifetime ends. */
  method StoreThenHit(cache: Cache<Entry>, cfg: Config, key: string, max: int, chunks: seq<seq<Byte>>, status: int,
                      header: Headers, cc: CacheControl, hash: seq<Byte> -> string, isHead: bool, ifNoneMatch: string,
                      ageText: int -> string, between: seq<CacheCall>, now: int, later: int)
    returns (first: seq<Byte>, stored: bool, second: Option<Response>)
    requires now <= later && forall i | 0 <= i < |between| :: LeavesAlone(between[i], key, later)
    modifies cache
    ensures first == Joined(chunks)
    ensures cache.failures == old(cache.failures) ==> (stored <==> Storable(cfg, status, SomeOverrun(max, chunks), cc))
    ensures stored && cache.failures == old(cache.failures) && later <= now + ChosenTtl(cfg, cc) - SECOND ==>
      second.Some?
    ensures stored && second.Some? ==>
      var own := if "ETag" in header && |header["ETag"]| > 0 then header["ETag"][0] else "";
      var etag := if own != "" then own else hash(first);
      && (if etag != "" && ifNoneMatch == etag then second.value.status == 304 && second.value.body == []
          else second.value.status == status && second.value.body == if isHead then [] else first)
      && (etag != "" ==> "ETag" in second.value.header && second.value.header["ETag"] == [etag])
      && "Age" in second.value.header && second.value.header["Age"] == [ageText(later - now)]
    ensures stored && second.Some? ==>
      forall h | h in header && h !in OWN_HEADERS ::
        h in second.value.header && second.value.header[h] == header[h] <==> |header[h]| == 1
    ensures stored ==> max <= 0 || |first| <= max
  {
    var w := CaptureAll(max, chunks);
    first := w.client;
    stored := ProcessAndStore(cache, cfg, key, w, status, header, cc, hash, now);
    if stored && |chunks| > 0 {
      NotOverrunFits(max, chunks);
    }
    if stored {
      ExpiryWindow(ChosenTtl(cfg, cc), now, later);
    }
    OtherCalls(cache, between, key, later);
    second := ServeFromCache(cache, key, isHead, ifNoneMatch, ageText, later);
    forall h | h in header && h !in OWN_HEADERS
      ensures stored && second.Some? ==>
        (h in second.value.header && second.value.header[h] == header[h] <==> |header[h]| == 1)
    {
      ReplayedWholeIff(status, header, first, hash, now, isHead, ifNoneMatch, ageText(later - now), h);
    }
  }

  lemma NotOverrunFits(max: int, chunks: seq<seq<Byte>>)
    requires !SomeOverrun(max, chunks) && |chunks| > 0
    ensures max == 0 || |Joined(chunks)| <= max
  {
    var i := |chunks| - 1;
    assert !Overruns(max, |Joined(chunks[..i])|, chunks[i]);
  }
}
