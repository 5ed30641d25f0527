/** The in-memory store with lazy expiry, and the timed map it stands for. */
module TimedMap {
  import opened Bytes
  import opened Envelope

  /** One write: what was stored, for how long, and when the clock was read. */
  datatype Entry = Entry(value: Slice, ttl: int, written: int)

  datatype Lookup = Hit(content: seq<Byte>) | Miss | Corrupt

  /** The bytes a write leaves in the store. */
  function Stored(e: Entry): seq<Byte> {
    EncodeWithTtl(e.value, e.ttl, e.written).Content()
  }

  function Interpret(b: seq<Byte>, now: int): Lookup {
    match DecodeWithTtl(Bytes(b), now)
    case Raw(v) => Hit(v.Content())
    case Wrapped(v) => Hit(v.Content())
    case Expired => Miss
    case Malformed => Corrupt
  }

  /** What a write shows a reader at a given instant. */
  function Observe(e: Entry, now: int): Lookup {
    Interpret(Stored(e), now)
  }

  /** The timed map: nothing is ever deleted because of its age. */
  type Log = map<string, Entry>

  function LookupIn(log: Log, key: string, now: int): Lookup {
    if key in log then Observe(log[key], now) else Miss
  }

  /** Values the envelope reader cannot mistake for its own output. */
  predicate Clean(e: Entry) {
    e.ttl > 0 || !HasPrefix(e.value.Content(), MAGIC)
  }

  predicate Lives(e: Entry, now: int) {
    Alive(e.ttl, e.written, now)
  }

  /** A clean write shows its own bytes while it lives and nothing after; any other write never shows them. */
  lemma ObserveIsTimed(e: Entry, now: int)
    ensures Clean(e) ==> Observe(e, now) == if Lives(e, now) then Hit(e.value.Content()) else Miss
    ensures !Clean(e) ==> Observe(e, now) != Hit(e.value.Content())
  {
    if e.ttl > 0 {
      WrappedRoundTrip(e.value, e.ttl, e.written, now);
    } else {
      RawRoundTrip(e.value, e.ttl, e.written, now);
      var content := e.value.Content();
      assert DecodeWithTtl(Bytes(content), now).Raw? ==> DecodeWithTtl(Bytes(content), now).value == Bytes(content);
    }
  }

  /** Bytes with the prefix are read as an envelope: a lone prefix is corrupt, and an envelope shows what it carries
      up to its expiry second. */
  lemma InterpretEnvelope(tv: TtlValue, now: int)
    ensures Interpret(MAGIC, now) == Corrupt
    ensures Interpret(MAGIC + Marshal(tv), now) == if tv.e > 0 && Unix(now) >= tv.e then Miss else Hit(tv.v.Content())
  {
    PrefixFoolsReader(now);
    MarshalRoundTrip(tv);
    var b := MAGIC + Marshal(tv);
    assert b[..|MAGIC|] == MAGIC && b[|MAGIC|..] == Marshal(tv);
  }

  lemma MissIsFinal(b: seq<Byte>, now: int, later: int)
    requires now <= later && Interpret(b, now) == Miss
    ensures Interpret(b, later) == Miss
  {
    DeathIsFinal(Bytes(b), now, later);
  }

  lemma ShownEarlier(log: Log, key: string, now: int, later: int)
    requires now <= later && LookupIn(log, key, later) != Miss
    ensures LookupIn(log, key, now) != Miss
  {
    if LookupIn(log, key, now) == Miss && key in log {
      MissIsFinal(Stored(log[key]), now, later);
    }
  }

  predicate Matches(pattern: string, key: string) {
    pattern == "" || key == pattern
  }
}

module MemoryKV {
  import opened Bytes
  import opened Envelope
  import opened TimedMap

  /** A key-value store over byte arrays of its own. `log` is the timed map it stands for and `clock` the latest
      instant any call has read. */
  class MemoryKV {
    var data: map<string, array<Byte>>
    ghost var log: Log
    ghost var clock: int
    ghost var Repr: set<object>

    ghost predicate Valid()
      reads this, Repr
    {
      && this in Repr
      && (forall k | k in data :: data[k] in Repr && k in log && data[k][..] == Stored(log[k]))
      && (forall k | k in log && k !in data :: Observe(log[k], clock) == Miss)
    }

    constructor ()
      ensures Valid() && fresh(Repr) && log == map[] && data == map[]
    {
      data := map[];
      log := map[];
      clock := 0;
      Repr := {this};
    }

    ghost method Advance(now: int)
      requires Valid() && clock <= now
      modifies this`clock
      ensures Valid() && clock == now
    {
      forall k | k in log && k !in data
        ensures Observe(log[k], now) == Miss
      {
        MissIsFinal(Stored(log[k]), clock, now);
      }
      clock := now;
    }

    method Set(key: string, value: array?<Byte>, ttl: int, now: int)
      requires Valid() && clock <= now
      modifies this
      ensures Valid() && fresh(Repr - old(Repr)) && old(Repr) <= Repr && clock == now
      ensures log == old(log)[key := Entry(if value == null then Nil else Bytes(value[..]), ttl, now)]
    {
      Advance(now);
      var slice := if value == null then Nil else Bytes(value[..]);
      var encoded := EncodeWithTtl(slice, ttl, now).Content();
      var copied := new Byte[|encoded|](i requires 0 <= i < |encoded| => encoded[i]);
      assert copied[..] == encoded;
      data := data[key := copied];
      log := log[key := Entry(slice, ttl, now)];
      Repr := Repr + {copied};
    }

    method Get(key: string, now: int) returns (found: bool, corrupt: bool, result: array<Byte>)
      requires Valid() && clock <= now
      modifies this
      ensures Valid() && Repr == old(Repr) && log == old(log) && clock == now
      ensures fresh(result) && result !in Repr
      ensures LookupIn(log, key, now) == if found then Hit(result[..]) else if corrupt then Corrupt else Miss
      ensures !found && !corrupt ==> key !in data
    {
      Advance(now);
      found, corrupt := false, false;
      result := new Byte[0];
      if key !in data {
        return;
      }
      match Interpret(data[key][..], now) {
        case Corrupt =>
          corrupt := true;
        case Miss =>
          data := data - {key};
        case Hit(content) =>
          found := true;
          result := Copy(content);
      }
    }

    method Delete(key: string)
      requires Valid()
      modifies this
      ensures Valid() && Repr == old(Repr) && log == old(log) - {key} && clock == old(clock)
    {
      data := data - {key};
      log := log - {key};
    }

    method Exists(key: string, now: int) returns (exists_: bool, corrupt: bool)
      requires Valid() && clock <= now
      modifies this
      ensures Valid() && Repr == old(Repr) && log == old(log) && clock == now
      ensures exists_ <==> LookupIn(log, key, now).Hit?
      ensures corrupt <==> LookupIn(log, key, now).Corrupt?
      ensures !exists_ && !corrupt ==> key !in data
    {
      Advance(now);
      exists_, corrupt := false, false;
      if key in data {
        var shown := Interpret(data[key][..], now);
        if shown.Miss? {
          data := data - {key};
        }
        exists_, corrupt := shown.Hit?, shown.Corrupt?;
      }
    }

    /** Whether an entry of the store is still listed; an expired one is deleted. */
    method Lists(key: string, now: int) returns (listed: bool)
      requires Valid() && clock <= now && key in data
      modifies this
      ensures Valid() && Repr == old(Repr) && log == old(log) && clock == now
      ensures data == if listed then old(data) else old(data) - {key}
      ensures listed <==> LookupIn(log, key, now) != Miss
    {
      Advance(now);
      listed := !Interpret(data[key][..], now).Miss?;
      if !listed {
        data := data - {key};
      }
    }

    /** Lists matching keys in no particular order. The clock is read again for every entry, somewhere between
        `now` and `end`; when the two are equal the answer is exact. */
    method Keys(pattern: string, now: int, end: int) returns (keys: seq<string>)
      requires Valid() && clock <= now <= end
      modifies this
      ensures Valid() && Repr == old(Repr) && log == old(log) && clock == end
      ensures Distinct(keys)
      ensures forall k | k in keys :: (pattern == "" || k == pattern) && LookupIn(log, k, now) != Miss
      ensures forall k | k in log && (pattern == "" || k == pattern) && LookupIn(log, k, end) != Miss :: k in keys
    {
      Advance(now);
      keys := [];
      var rest := data.Keys;
      var t := now;
      ghost var shown := set k | k in log && Matches(pattern, k) && LookupIn(log, k, now) != Miss;
      while rest != {}
        invariant Valid() && Repr == old(Repr) && log == old(log) && now <= clock <= t <= end
        invariant rest <= data.Keys && forall k | k in keys :: k !in rest
        invariant Distinct(keys)
        invariant forall k | k in keys :: k in shown
        invariant forall k | k in data && Matches(pattern, k) && k !in rest :: k in keys
        decreases |rest|
      {
        var k :| k in rest;
        rest := rest - {k};
        if Matches(pattern, k) {
          var reading: int :| t <= reading <= end;
          t := reading;
          var listed := Lists(k, t);
          if listed {
            ShownEarlier(log, k, now, t);
            AppendDistinct(keys, k);
            keys := keys + [k];
          }
        }
      }
      Advance(end);
    }
  }

  method Copy(s: seq<Byte>) returns (a: array<Byte>)
    ensures fresh(a) && a[..] == s
  {
    a := new Byte[|s|](i requires 0 <= i < |s| => s[i]);
  }

  /** Buffers do not alias the store: scribbling on the written buffer and on a returned one changes no later answer. */
  method ScribbleOnBuffers(kv: MemoryKV, key: string, buf: array<Byte>, ttl: int, junk: Byte, now: int, t1: int,
                           t2: int)
    returns (found: bool, corrupt: bool, again: seq<Byte>)
    requires kv.Valid() && kv.clock <= now <= t1 <= t2 && buf !in kv.Repr
    modifies kv, buf
    ensures kv.Valid()
    ensures Observe(Entry(Bytes(old(buf[..])), ttl, now), t2)
         == if found then Hit(again) else if corrupt then Corrupt else Miss
  {
    kv.Set(key, buf, ttl, now);
    forall i | 0 <= i < buf.Length {
      buf[i] := junk;
    }
    var copy1, copy2;
    found, corrupt, copy1 := kv.Get(key, t1);
    forall i | 0 <= i < copy1.Length {
      copy1[i] := junk;
    }
    found, corrupt, copy2 := kv.Get(key, t2);
    again := copy2[..];
  }
}
