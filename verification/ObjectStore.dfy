/** Key strings. */
module Paths {
  import opened Bytes

  function TrimSuffix(s: string, suffix: string): string {
    if HasSuffix(s, suffix) then s[..|s| - |suffix|] else s
  }

  function TrimPrefix(s: string, prefix: string): string {
    if HasPrefix(s, prefix) then s[|prefix|..] else s
  }

  /** The first position of `sub` in `s`, if any. */
  function Index(s: string, sub: string): (i: Option<nat>)
    ensures i.Some? ==> i.value <= |s| && HasPrefix(s[i.value..], sub)
    ensures HasPrefix(s, sub) ==> i == Some(0)
    decreases |s|
  {
    if HasPrefix(s, sub) then Some(0)
    else if |s| == 0 then None
    else match Index(s[1..], sub) {
      case None => None
      case Some(n) => Some(n + 1)
    }
  }

  function ReplaceFirst(s: string, from: string, to: string): string {
    match Index(s, from)
    case None => s
    case Some(i) => s[..i] + to + s[i + |from|..]
  }

  /** The position of the last slash, or -1. */
  function LastSlash(s: string): (i: int)
    ensures -1 <= i < |s|
    ensures i >= 0 ==> s[i] == '/'
    ensures forall j | i < j < |s| :: s[j] != '/'
  {
    if |s| == 0 then -1
    else if s[|s| - 1] == '/' then |s| - 1
    else LastSlash(s[..|s| - 1])
  }

  /** All parts but the last, joined by slashes. */
  function Parent(s: string): string {
    if LastSlash(s) < 0 then "" else s[..LastSlash(s)]
  }

  /** The part after the last slash. */
  function Name(s: string): string {
    s[LastSlash(s) + 1..]
  }

  /** Everything a user stores under a path; the empty path is the user's root. */
  function FolderPrefix(user: string, path: string): string {
    if path == "" then user + "/" else user + "/" + path + "/"
  }

  predicate Owns(user: string, key: string) {
    HasPrefix(key, user + "/")
  }

  lemma PrefixSplit(s: string, prefix: string)
    requires HasPrefix(s, prefix)
    ensures s == prefix + s[|prefix|..]
  {
  }

  lemma PrefixOfConcat(prefix: string, rest: string)
    ensures HasPrefix(prefix + rest, prefix) && (prefix + rest)[|prefix|..] == rest
  {
  }
}

/** A flat object store: a map from key to object whose calls may fail without effect. */
module ObjectStore {
  import opened Bytes
  import opened Paths

  type Objects<V> = map<string, V>

  /** A listing holds exactly the keys under a prefix, each once; the order is the store's business. */
  ghost predicate IsListing<V>(keys: seq<string>, objects: Objects<V>, prefix: string) {
    && Distinct(keys)
    && (forall k :: k in keys <==> k in objects && HasPrefix(k, prefix))
  }

  /** What a listing that breaks off has delivered by then. */
  ghost predicate IsPartial<V>(keys: seq<string>, objects: Objects<V>, prefix: string) {
    && Distinct(keys)
    && (forall k | k in keys :: k in objects && HasPrefix(k, prefix))
  }

  /** What a key under a prefix shows as in a listing delimited by slashes: itself, or the folder it is in. */
  function Entry(key: string, prefix: string): string
    requires HasPrefix(key, prefix)
  {
    match Index(key[|prefix|..], "/")
    case None => key
    case Some(i) => key[..|prefix| + i] + "/"
  }

  /** A delimited listing holds the entry of every key under the prefix, each once. */
  ghost predicate IsDelimited<V>(entries: seq<string>, objects: Objects<V>, prefix: string) {
    && Distinct(entries)
    && (forall e | e in entries :: exists k :: k in objects && HasPrefix(k, prefix) && Entry(k, prefix) == e)
    && (forall k {:trigger Entry(k, prefix)} | k in objects && HasPrefix(k, prefix) :: Entry(k, prefix) in entries)
  }

  method InAnyOrder(s: set<string>) returns (keys: seq<string>)
    ensures Distinct(keys)
    ensures forall k :: k in keys <==> k in s
  {
    keys := [];
    var rest := s;
    while rest != {}
      invariant rest <= s
      invariant Distinct(keys)
      invariant forall k :: k in keys <==> k in s && k !in rest
      decreases |rest|
    {
      var k :| k in rest;
      rest := rest - {k};
      keys := keys + [k];
    }
  }

  /** `failures` counts the calls that did not work. */
  class Store<V> {
    var objects: Objects<V>
    ghost var failures: nat

    constructor ()
      ensures objects == map[] && failures == 0
    {
      objects := map[];
      failures := 0;
    }

    ghost method Note(ok: bool)
      modifies this`failures
      ensures failures == old(failures) + if ok then 0 else 1
    {
      failures := failures + if ok then 0 else 1;
    }

    /** Keys arrive one by one until the listing ends or, with `ok` false, breaks off. */
    method ListObjects(prefix: string) returns (keys: seq<string>, ok: bool)
      modifies this`failures
      ensures failures == old(failures) + if ok then 0 else 1
      ensures IsPartial(keys, objects, prefix)
      ensures ok ==> IsListing(keys, objects, prefix)
    {
      keys := InAnyOrder(set k | k in objects && HasPrefix(k, prefix));
      ok := *;
      Note(ok);
      if !ok {
        var n: nat :| n <= |keys|;
        assert forall k | k in keys[..n] :: k in keys;
        keys := keys[..n];
      }
    }

    method ListEntries(prefix: string) returns (entries: seq<string>, ok: bool)
      modifies this`failures
      ensures failures == old(failures) + if ok then 0 else 1
      ensures ok ==> IsDelimited(entries, objects, prefix)
    {
      entries := InAnyOrder(set k | k in objects && HasPrefix(k, prefix) :: Entry(k, prefix));
      ok := *;
      Note(ok);
    }

    method PutObject(key: string, object_: V) returns (ok: bool)
      modifies this
      ensures failures == old(failures) + if ok then 0 else 1
      ensures objects == if ok then old(objects)[key := object_] else old(objects)
    {
      ok := *;
      Note(ok);
      if ok {
        objects := objects[key := object_];
      }
    }

    method CopyObject(to: string, from: string) returns (ok: bool)
      modifies this
      ensures failures == old(failures) + if ok then 0 else 1
      ensures ok ==> from in old(objects)
      ensures objects == if ok then old(objects)[to := old(objects)[from]] else old(objects)
    {
      ok := *;
      ok := ok && from in objects;
      Note(ok);
      if ok {
        objects := objects[to := objects[from]];
      }
    }

    /** Removing an absent key succeeds. */
    method RemoveObject(key: string) returns (ok: bool)
      modifies this
      ensures failures == old(failures) + if ok then 0 else 1
      ensures objects == if ok then old(objects) - {key} else old(objects)
    {
      ok := *;
      Note(ok);
      if ok {
        objects := objects - {key};
      }
    }
  }
}
