/** Folders as marker keys ending in a slash, found again by the hash of their path. */
module Folders {
  import opened Bytes
  import opened Paths
  import opened ObjectStore
  import Rename

  datatype Location = Location(path: string, name: string)

  function FullPath(path: string, name: string): string {
    if path != "" then path + "/" + name else name
  }

  function MarkerKey(user: string, fullPath: string): string {
    user + "/" + fullPath + "/"
  }

  function FolderId(hash: string -> string, user: string, fullPath: string): string {
    hash(user + "/" + fullPath)
  }

  /** The path a marker key stands for. */
  function FolderPathOf(user: string, key: string): string {
    TrimPrefix(TrimSuffix(key, "/"), user + "/")
  }

  function Locate(fullPath: string): Location {
    Location(Parent(fullPath), Name(fullPath))
  }

  /** The prefix a located folder is deleted under. */
  function LocationPrefix(user: string, at: Location): string {
    if at.path != "" then user + "/" + at.path + "/" + at.name + "/" else user + "/" + at.name + "/"
  }

  predicate Matches(hash: string -> string, user: string, id: string, key: string) {
    HasSuffix(key, "/") && FolderId(hash, user, FolderPathOf(user, key)) == id
  }

  method CreateFolder<V>(store: Store<V>, hash: string -> string, user: string, requestUser: string, path: string,
                         name: string, marker: V)
    returns (ok: bool, id: string)
    modifies store
    ensures ok <==> store.failures == old(store.failures)
    ensures store.failures >= old(store.failures)
    ensures var owner := if requestUser != "" then requestUser else user;
      && id == FolderId(hash, owner, FullPath(path, name))
      && store.objects == if ok then old(store.objects)[MarkerKey(owner, FullPath(path, name)) := marker]
                          else old(store.objects)
    ensures var owner := if requestUser != "" then requestUser else user;
            var folder := if path != "" then owner + "/" + path + "/" + name else owner + "/" + name;
      id == hash(folder) && (ok ==> folder + "/" in store.objects && store.objects[folder + "/"] == marker)
  {
    var targetUser := if requestUser != "" then requestUser else user;
    var fullPath := name;
    if path != "" {
      fullPath := path + "/" + name;
    }
    ok := store.PutObject(targetUser + "/" + fullPath + "/", marker);
    id := hash(targetUser + "/" + fullPath);
    assert targetUser + "/" + (path + "/" + name) == targetUser + "/" + path + "/" + name;
  }

  /** A key whose folder has this ID. */
  ghost predicate Marks<V>(objects: Objects<V>, hash: string -> string, user: string, id: string, key: string) {
    key in objects && Owns(user, key) && Matches(hash, user, id, key)
  }

  /** The folder of the first matching marker to arrive; `listed` is false when the listing broke off. */
  method FindFolderPath<V>(store: Store<V>, hash: string -> string, user: string, id: string)
    returns (at: Option<Location>, listed: bool, ghost marker: string)
    modifies store`failures
    ensures store.failures == old(store.failures) + if listed then 0 else 1
    ensures at.Some? ==> Marks(store.objects, hash, user, id, marker) && at.value == Locate(FolderPathOf(user, marker))
    ensures at.None? && listed ==> forall k :: !Marks(store.objects, hash, user, id, k)
  {
    var keys;
    keys, listed := store.ListObjects(user + "/");
    marker := "";
    for i := 0 to |keys|
      invariant forall j | 0 <= j < i :: !Matches(hash, user, id, keys[j])
    {
      assert keys[i] in keys;
      if HasSuffix(keys[i], "/") {
        var folderPath := TrimPrefix(TrimSuffix(keys[i], "/"), user + "/");
        if hash(user + "/" + folderPath) == id {
          return Some(Locate(folderPath)), listed, keys[i];
        }
      }
    }
    at := None;
  }

  // ---- the ID of a folder leads back to its marker ----

  predicate Collide(hash: string -> string, x: string, y: string) {
    hash(x) == hash(y)
  }

  ghost predicate Injective(hash: string -> string) {
    forall x, y | Collide(hash, x, y) :: x == y
  }

  lemma PathOfMarker(user: string, fullPath: string)
    ensures Owns(user, MarkerKey(user, fullPath)) && HasSuffix(MarkerKey(user, fullPath), "/")
    ensures FolderPathOf(user, MarkerKey(user, fullPath)) == fullPath
  {
    var key := MarkerKey(user, fullPath);
    assert key[..|key| - 1] == user + "/" + fullPath && key[|key| - 1..] == "/";
    assert key[..|user| + 1] == user + "/";
    PrefixOfConcat(user + "/", fullPath);
  }

  lemma MarkerOfPath(user: string, key: string)
    requires Owns(user, key) && HasSuffix(key, "/") && key != user + "/"
    ensures MarkerKey(user, FolderPathOf(user, key)) == key
  {
    var trimmed := key[..|key| - 1];
    assert key == trimmed + "/";
    assert |user| + 1 < |key|;
    assert trimmed[..|user| + 1] == key[..|user| + 1];
    PrefixSplit(trimmed, user + "/");
  }

  /** Unless the user has an object under the bare key "user/", an ID is matched by the marker it was made for and
      by no other key. */
  lemma IdMatchesItsMarker(hash: string -> string, user: string, fullPath: string, key: string)
    requires Injective(hash) && Owns(user, key) && key != user + "/"
    ensures Matches(hash, user, FolderId(hash, user, fullPath), key) <==> key == MarkerKey(user, fullPath)
  {
    PathOfMarker(user, fullPath);
    if HasSuffix(key, "/") && FolderId(hash, user, FolderPathOf(user, key)) == FolderId(hash, user, fullPath) {
      assert Collide(hash, user + "/" + FolderPathOf(user, key), user + "/" + fullPath);
      assert (user + "/" + FolderPathOf(user, key))[|user| + 1..] == FolderPathOf(user, key);
      assert (user + "/" + fullPath)[|user| + 1..] == fullPath;
      MarkerOfPath(user, key);
    }
  }

  /** The bare key passes for a folder named like the user, and for no other. */
  lemma BareKeyMatchesIff(hash: string -> string, user: string, fullPath: string)
    requires Injective(hash)
    ensures Matches(hash, user, FolderId(hash, user, fullPath), user + "/") <==> fullPath == user
  {
    var key := user + "/";
    assert key[..|key| - 1] == user && key[|key| - 1..] == "/";
    assert FolderPathOf(user, key) == user;
    if FolderId(hash, user, user) == FolderId(hash, user, fullPath) {
      assert Collide(hash, user + "/" + user, user + "/" + fullPath);
      assert (user + "/" + user)[|user| + 1..] == user && (user + "/" + fullPath)[|user| + 1..] == fullPath;
    }
  }

  /** Splitting a path into parent and name and joining them again finds the marker exactly when the path is not a
      lone leading slash before a name. */
  lemma RebuiltPrefixIff(user: string, fullPath: string)
    ensures LocationPrefix(user, Locate(fullPath)) == MarkerKey(user, fullPath) <==> LastSlash(fullPath) != 0
  {
    var i := LastSlash(fullPath);
    if i < 0 {
      assert fullPath[0..] == fullPath;
    } else if i == 0 {
      assert |LocationPrefix(user, Locate(fullPath))| < |MarkerKey(user, fullPath)|;
    } else {
      assert fullPath == fullPath[..i] + "/" + fullPath[i + 1..];
    }
  }

  // ---- deleting ----

  lemma RangeGrows(keys: seq<string>, i: nat)
    requires i < |keys| && Distinct(keys)
    ensures Range(keys[..i + 1]) == Range(keys[..i]) + {keys[i]} && keys[i] !in Range(keys[..i])
  {
    assert keys[..i + 1] == keys[..i] + [keys[i]];
  }

  lemma RemovedGrows<V>(objects: Objects<V>, removed: set<string>, key: string)
    ensures objects - removed - {key} == objects - (removed + {key})
  {
  }

  /** `removed` are the names whose removal worked; a failed one is skipped. */
  method RemoveEach<V>(store: Store<V>, keys: seq<string>) returns (count: nat, ghost removed: set<string>)
    requires Distinct(keys)
    modifies store
    ensures store.failures == old(store.failures) + |keys| - count
    ensures count == |removed| <= |keys| && removed <= Range(keys) && (count == |keys| ==> removed == Range(keys))
    ensures store.objects == old(store.objects) - removed
  {
    count, removed := 0, {};
    for i := 0 to |keys|
      invariant count == |removed| <= i && removed <= Range(keys[..i]) && (count == i ==> removed == Range(keys[..i]))
      invariant store.objects == old(store.objects) - removed
      invariant store.failures == old(store.failures) + i - count
    {
      RangeGrows(keys, i);
      var gone := store.RemoveObject(keys[i]);
      if !gone {
        continue;
      }
      RemovedGrows(old(store.objects), removed, keys[i]);
      count := count + 1;
      removed := removed + {keys[i]};
    }
    assert keys[..|keys|] == keys;
  }

  lemma EntryOfOther(key: string, prefix: string)
    requires HasPrefix(key, prefix)
    ensures Entry(key, prefix) == prefix <==> key == prefix
  {
    var rest := key[|prefix|..];
    PrefixSplit(key, prefix);
    if key != prefix {
      assert |rest| > 0;
      if Index(rest, "/").None? {
        assert Entry(key, prefix) == key;
      } else {
        assert |Entry(key, prefix)| == |prefix| + Index(rest, "/").value + 1;
      }
    }
  }

  lemma AnotherEntry(entries: seq<string>, e: string) returns (other: string)
    requires |entries| > 1 && Distinct(entries)
    ensures other in entries && other != e
  {
    other := if entries[0] != e then entries[0] else entries[1];
  }

  lemma KeyBesidesMarker<V>(objects: Objects<V>, prefix: string, entries: seq<string>) returns (k: string)
    requires prefix in objects && IsDelimited(entries, objects, prefix) && |entries| > 1
    ensures k in objects && HasPrefix(k, prefix) && k != prefix
  {
    EntryOfOther(prefix, prefix);
    var other := AnotherEntry(entries, prefix);
    k :| k in objects && HasPrefix(k, prefix) && Entry(k, prefix) == other;
  }

  lemma TwoEntries<V>(objects: Objects<V>, prefix: string, entries: seq<string>, k: string)
    requires prefix in objects && IsDelimited(entries, objects, prefix)
    requires k in objects && HasPrefix(k, prefix) && k != prefix
    ensures |entries| > 1
  {
    EntryOfOther(prefix, prefix);
    EntryOfOther(k, prefix);
    assert HasPrefix(prefix, prefix);
    assert prefix in entries && Entry(k, prefix) in entries;
  }

  /** No object under the prefix but the marker itself. */
  ghost predicate OnlyMarker<V>(objects: Objects<V>, prefix: string) {
    forall k | k in objects && HasPrefix(k, prefix) :: k == prefix
  }

  /** With its marker in place, a folder lists at most one entry exactly when nothing else is in it, at any depth. */
  lemma LoneMarkerIff<V>(objects: Objects<V>, prefix: string, entries: seq<string>)
    requires prefix in objects && IsDelimited(entries, objects, prefix)
    ensures |entries| <= 1 <==> OnlyMarker(objects, prefix)
    ensures |entries| <= 1 ==> entries == [prefix]
  {
    EntryOfOther(prefix, prefix);
    assert HasPrefix(prefix, prefix);
    assert prefix in entries;
    if k :| k in objects && HasPrefix(k, prefix) && k != prefix {
      TwoEntries(objects, prefix, entries, k);
    } else if |entries| > 1 {
      var k := KeyBesidesMarker(objects, prefix, entries);
    }
  }

  lemma {:induction false} IndexOfCut(s: string, i: nat)
    requires Index(s, "/") == Some(i)
    ensures Index(s[..i] + "/", "/") == Some(i)
  {
    if i == 0 {
      assert s[..0] + "/" == "/";
    } else {
      IndexOfCut(s[1..], i - 1);
      assert (s[..i] + "/")[1..] == s[1..][..i - 1] + "/";
    }
  }

  /** An entry that is itself an object shows as itself. */
  lemma EntryOfEntry(key: string, prefix: string)
    requires HasPrefix(key, prefix)
    ensures HasPrefix(Entry(key, prefix), prefix) && Entry(Entry(key, prefix), prefix) == Entry(key, prefix)
  {
    var rest := key[|prefix|..];
    PrefixSplit(key, prefix);
    if Index(rest, "/").Some? {
      var i := Index(rest, "/").value;
      var e := Entry(key, prefix);
      IndexOfCut(rest, i);
      assert e == prefix + (rest[..i] + "/");
      PrefixOfConcat(prefix, rest[..i] + "/");
    }
  }

  /** Some key under the prefix is an entry of the delimited listing by its own name. */
  ghost predicate ShowsItself<V>(objects: Objects<V>, prefix: string) {
    exists k :: k in objects && HasPrefix(k, prefix) && Entry(k, prefix) == k
  }

  ghost predicate NothingUnder<V>(objects: Objects<V>, prefix: string) {
    forall k | k in objects :: !HasPrefix(k, prefix)
  }

  lemma RemovedCount<V>(objects: Objects<V>, removed: set<string>)
    ensures |objects| - |objects - removed| == |removed| <==> removed <= objects.Keys
  {
    var hit := objects.Keys * removed;
    assert (objects - removed).Keys == objects.Keys - hit;
    assert |objects.Keys - hit| == |objects.Keys| - |hit|;
    assert |removed - hit| == |removed| - |hit|;
    assert removed - hit == {} <==> removed <= objects.Keys;
  }

  /** Removing what was listed takes away as many objects as names unless the one name removed is no object. */
  lemma CountIsExactIff<V>(objects: Objects<V>, prefix: string, recursive: bool, listing: seq<string>,
                           removed: set<string>)
    requires if recursive then IsListing(listing, objects, prefix)
             else IsDelimited(listing, objects, prefix) && |listing| <= 1
    requires removed <= Range(listing)
    ensures |removed| == |objects| - |objects - removed|
            <==> recursive || |removed| == 0 || ShowsItself(objects, prefix)
  {
    RemovedCount(objects, removed);
    if recursive {
      ListedAreObjects(objects, prefix, listing);
    } else if removed != {} {
      OneNameRemoved(listing, removed);
      LoneEntryIsObjectIff(objects, prefix, listing);
    }
  }

  lemma ListedAreObjects<V>(objects: Objects<V>, prefix: string, listing: seq<string>)
    requires IsListing(listing, objects, prefix)
    ensures Range(listing) <= objects.Keys
  {
  }

  lemma OneNameRemoved(listing: seq<string>, removed: set<string>)
    requires |listing| <= 1 && removed <= Range(listing) && removed != {}
    ensures |listing| == 1 && removed == {listing[0]}
  {
    var e :| e in removed;
    assert e in Range(listing);
  }

  lemma EntryInObjects<V>(objects: Objects<V>, prefix: string, key: string)
    requires HasPrefix(key, prefix) && Entry(key, prefix) in objects
    ensures ShowsItself(objects, prefix)
  {
    EntryOfEntry(key, prefix);
  }

  lemma LoneEntryShows<V>(objects: Objects<V>, prefix: string, entries: seq<string>)
    requires IsDelimited(entries, objects, prefix) && |entries| == 1 && entries[0] in objects
    ensures ShowsItself(objects, prefix)
  {
    assert entries[0] in entries;
    var k :| k in objects && HasPrefix(k, prefix) && Entry(k, prefix) == entries[0];
    EntryInObjects(objects, prefix, k);
  }

  lemma LoneEntryIsObject<V>(objects: Objects<V>, prefix: string, entries: seq<string>, k: string)
    requires IsDelimited(entries, objects, prefix) && |entries| == 1
    requires k in objects && HasPrefix(k, prefix) && Entry(k, prefix) == k
    ensures entries[0] == k
  {
    assert Entry(k, prefix) in entries;
  }

  lemma LoneEntryIsObjectIff<V>(objects: Objects<V>, prefix: string, entries: seq<string>)
    requires IsDelimited(entries, objects, prefix) && |entries| == 1
    ensures entries[0] in objects <==> ShowsItself(objects, prefix)
  {
    if entries[0] in objects {
      LoneEntryShows(objects, prefix, entries);
    } else {
      forall k | k in objects && HasPrefix(k, prefix)
        ensures Entry(k, prefix) != k
      {
        if Entry(k, prefix) == k {
          LoneEntryIsObject(objects, prefix, entries, k);
        }
      }
    }
  }

  lemma EmptyListing<V>(objects: Objects<V>, prefix: string, recursive: bool, listing: seq<string>)
    requires if recursive then IsListing(listing, objects, prefix) else IsDelimited(listing, objects, prefix)
    ensures |listing| == 0 <==> NothingUnder(objects, prefix)
  {
    if |listing| > 0 {
      assert listing[0] in listing;
    }
    forall k | k in objects && HasPrefix(k, prefix)
      ensures |listing| > 0
    {
      if !recursive {
        assert Entry(k, prefix) in listing;
      }
    }
  }

  /** Refuses, when the listing works, exactly a non-recursive delete of a folder with more than one entry. */
  method DeleteFolderObjects<V>(store: Store<V>, prefix: string, recursive: bool)
    returns (count: nat, ok: bool, ghost listed: bool, ghost listing: seq<string>, ghost removed: set<string>)
    modifies store
    ensures store.failures == old(store.failures) + if !listed then 1 else if ok then |listing| - count else 0
    ensures ok <==> listed && (recursive || |listing| <= 1)
    ensures !ok ==> removed == {}
    ensures listed ==> if recursive then IsListing(listing, old(store.objects), prefix)
                       else IsDelimited(listing, old(store.objects), prefix)
    ensures removed <= Range(listing) && (ok && count == |listing| ==> removed == Range(listing))
    ensures store.objects == old(store.objects) - removed && count == |removed| <= |listing|
    ensures ok ==> (count == |old(store.objects)| - |store.objects|
                    <==> recursive || count == 0 || ShowsItself(old(store.objects), prefix))
    ensures ok && store.failures == old(store.failures) ==> (count == 0 <==> NothingUnder(old(store.objects), prefix))
  {
    var keys, complete;
    if recursive {
      keys, complete := store.ListObjects(prefix);
    } else {
      keys, complete := store.ListEntries(prefix);
    }
    listed, listing, removed, count := complete, keys, {}, 0;
    if !complete || (!recursive && |keys| > 1) {
      assert store.objects == old(store.objects) - removed;
      return 0, false, complete, keys, {};
    }
    count, removed := RemoveEach(store, keys);
    ok := true;
    CountIsExactIff(old(store.objects), prefix, recursive, listing, removed);
    EmptyListing(old(store.objects), prefix, recursive, listing);
  }

  /** A folder without a marker that holds one other folder: one name is removed, and no object goes. */
  method CountCanLie() returns (store: Store<int>, count: nat, ok: bool)
    ensures fresh(store) && store.objects == map["u/a/b/x" := 1]
    ensures store.failures == 0 ==> ok && count == 1
  {
    store := new Store();
    store.objects := map["u/a/b/x" := 1];
    OneDeepKey();
    ghost var listed, listing, removed;
    count, ok, listed, listing, removed := DeleteFolderObjects(store, "u/a/", false);
    if listed {
      OneEntry(listing);
    }
  }

  lemma OneDeepKey()
    ensures HasPrefix("u/a/b/x", "u/a/") && Entry("u/a/b/x", "u/a/") == "u/a/b/"
  {
    var key := "u/a/b/x";
    assert key[..4] == "u/a/" && key[4..] == "b/x";
    assert "b/x"[..1][0] == 'b';
    assert !HasPrefix("b/x", "/") && "b/x"[1..] == "/x" && HasPrefix("/x", "/");
    assert Index("b/x", "/") == Some(1);
    assert key[..5] + "/" == "u/a/b/";
  }

  lemma OneEntry(listing: seq<string>)
    requires IsDelimited(listing, map["u/a/b/x" := 1], "u/a/")
    ensures listing == ["u/a/b/"]
  {
    assert |listing| > 1 ==> listing[0] != listing[1];
    OneDeepKey();
    assert "u/a/b/x" in map["u/a/b/x" := 1];
    assert Entry("u/a/b/x", "u/a/") in listing;
    forall i | 0 <= i < |listing|
      ensures listing[i] == "u/a/b/"
    {
      assert listing[i] in listing;
    }
  }

  /** What one delete call does to the store when the rebuilt prefix is a marker: without `recursive` it goes through
      only for a folder holding nothing else and then at most removes the marker; with it, it removes keys under the
      prefix, all of them when no call fails; the count is the number of objects gone. */
  ghost predicate DeletedExactly<V>(before: Objects<V>, after: Objects<V>, prefix: string, recursive: bool, count: nat,
                                    failures: nat) {
    && (!recursive ==> OnlyMarker(before, prefix))
    && (forall k | k in before && !HasPrefix(k, prefix) :: k in after)
    && (failures == 0 ==> forall k | k in after :: !HasPrefix(k, prefix))
    && (forall k | k in after :: k in before && after[k] == before[k])
    && count == |before| - |after|
  }

  lemma MarkerShowsItself<V>(objects: Objects<V>, prefix: string)
    requires prefix in objects
    ensures ShowsItself(objects, prefix)
  {
    EntryOfOther(prefix, prefix);
    assert HasPrefix(prefix, prefix);
  }

  lemma RemovedIsExact<V>(before: Objects<V>, prefix: string, recursive: bool, listing: seq<string>,
                          removed: set<string>, failures: nat)
    requires if recursive then IsListing(listing, before, prefix)
             else IsDelimited(listing, before, prefix) && |listing| <= 1 && prefix in before
    requires removed <= Range(listing) && (failures == 0 ==> removed == Range(listing))
    ensures DeletedExactly(before, before - removed, prefix, recursive, |removed|, failures)
  {
    CountIsExactIff(before, prefix, recursive, listing, removed);
    if !recursive {
      LoneMarkerIff(before, prefix, listing);
      MarkerShowsItself(before, prefix);
    }
  }

  /** How a delete of a located folder ends: with its marker in place and no failing call it goes through if and only if
      it is recursive or the marker is alone; then it deletes exactly, in particular for every rebuilt marker. */
  ghost predicate FolderDeleted<V>(before: Objects<V>, after: Objects<V>, user: string, at: Location, marker: string,
                                   recursive: bool, ok: bool, count: nat, failures: nat) {
    var prefix := LocationPrefix(user, at);
    && (!ok ==> after == before)
    && (Rebuilds(user, marker) ==> prefix == marker)
    && (prefix in before && failures == 0 ==> (ok <==> recursive || OnlyMarker(before, prefix)))
    && (ok && (recursive || Rebuilds(user, marker) || prefix in before) ==>
          DeletedExactly(before, after, prefix, recursive, count, failures))
  }

  method DeleteFolder<V>(store: Store<V>, hash: string -> string, user: string, id: string, recursive: bool)
    returns (ok: bool, count: nat, ghost at: Option<Location>, ghost marker: string)
    modifies store
    ensures store.failures >= old(store.failures)
    ensures at.None? ==> !ok && store.objects == old(store.objects)
    ensures at.None? && store.failures == old(store.failures) ==>
      forall k :: !Marks(old(store.objects), hash, user, id, k)
    ensures at.Some? ==>
      Marks(old(store.objects), hash, user, id, marker) && at.value == Locate(FolderPathOf(user, marker))
    ensures at.Some? ==>
      FolderDeleted(old(store.objects), store.objects, user, at.value, marker, recursive, ok, count,
                    store.failures - old(store.failures))
  {
    var found, complete;
    found, complete, marker := FindFolderPath(store, hash, user, id);
    at := found;
    if found.None? {
      return false, 0, at, marker;
    }
    var prefix := user + "/" + found.value.name + "/";
    if found.value.path != "" {
      prefix := user + "/" + found.value.path + "/" + found.value.name + "/";
    }
    ghost var listed, listing, removed;
    count, ok, listed, listing, removed := DeleteFolderObjects(store, prefix, recursive);
    FolderIsDeleted(old(store.objects), hash, user, id, found.value, marker, recursive, ok, listed, listing, removed,
                    store.failures - old(store.failures));
  }

  lemma FolderIsDeleted<V>(before: Objects<V>, hash: string -> string, user: string, id: string, at: Location,
                           marker: string, recursive: bool, ok: bool, listed: bool, listing: seq<string>,
                           removed: set<string>, failures: nat)
    requires Marks(before, hash, user, id, marker) && at == Locate(FolderPathOf(user, marker))
    requires ok <==> listed && (recursive || |listing| <= 1)
    requires listed ==> if recursive then IsListing(listing, before, LocationPrefix(user, at))
                        else IsDelimited(listing, before, LocationPrefix(user, at))
    requires !ok ==> removed == {}
    requires removed <= Range(listing) && (ok && |removed| == |listing| ==> removed == Range(listing))
    requires failures == 0 ==> listed && (ok ==> |removed| == |listing|)
    ensures FolderDeleted(before, before - removed, user, at, marker, recursive, ok, |removed|, failures)
  {
    RebuiltIsMarker(before, hash, user, id, marker);
    if listed {
      DeleteOutcome(before, LocationPrefix(user, at), recursive, ok, listing, removed, failures);
    }
  }

  lemma DeleteOutcome<V>(before: Objects<V>, prefix: string, recursive: bool, ok: bool, listing: seq<string>,
                         removed: set<string>, failures: nat)
    requires if recursive then IsListing(listing, before, prefix) else IsDelimited(listing, before, prefix)
    requires ok <==> recursive || |listing| <= 1
    requires removed <= Range(listing) && (ok && failures == 0 ==> removed == Range(listing))
    ensures prefix in before ==> (ok <==> recursive || OnlyMarker(before, prefix))
    ensures ok && (recursive || prefix in before) ==>
      DeletedExactly(before, before - removed, prefix, recursive, |removed|, failures)
  {
    if !recursive && prefix in before {
      LoneMarkerIff(before, prefix, listing);
    }
    if ok && (recursive || prefix in before) {
      RemovedIsExact(before, prefix, recursive, listing, removed, failures);
    }
  }

  /** Markers whose key is rebuilt from parent and name: not the bare key, nor a path whose only slash is in front. */
  predicate Rebuilds(user: string, marker: string) {
    marker != user + "/" && LastSlash(FolderPathOf(user, marker)) != 0
  }

  lemma RebuiltIsMarker<V>(objects: Objects<V>, hash: string -> string, user: string, id: string, marker: string)
    requires Marks(objects, hash, user, id, marker)
    ensures Rebuilds(user, marker) ==>
      LocationPrefix(user, Locate(FolderPathOf(user, marker))) == marker
      && LocationPrefix(user, Locate(FolderPathOf(user, marker))) in objects
  {
    if Rebuilds(user, marker) {
      MarkerOfPath(user, marker);
      RebuiltPrefixIff(user, FolderPathOf(user, marker));
    }
  }

  lemma OnlyItsMarkerMatches<V>(objects: Objects<V>, hash: string -> string, user: string, fullPath: string)
    requires Injective(hash) && (user + "/" !in objects || fullPath != user)
    ensures forall k | Marks(objects, hash, user, FolderId(hash, user, fullPath), k) :: k == MarkerKey(user, fullPath)
  {
    forall k | Marks(objects, hash, user, FolderId(hash, user, fullPath), k)
      ensures k == MarkerKey(user, fullPath)
    {
      if k == user + "/" {
        BareKeyMatchesIff(hash, user, fullPath);
      } else {
        IdMatchesItsMarker(hash, user, fullPath, k);
      }
    }
  }

  /** Creating a folder and deleting it by its ID: when no store call fails, exactly the marker that was created goes,
      unless the folder already held something, and then nothing does. */
  method CreateThenDelete<V>(store: Store<V>, hash: string -> string, user: string, path: string, name: string,
                             marker: V)
    returns (deleted: bool, count: nat)
    requires Injective(hash) && LastSlash(FullPath(path, name)) != 0
    requires user + "/" !in store.objects || FullPath(path, name) != user
    modifies store
    ensures var key := MarkerKey(user, FullPath(path, name)); var worked := store.failures == old(store.failures);
      && (worked ==> (deleted <==> OnlyMarker(old(store.objects), key)))
      && (deleted && (worked || count > 0) ==> count == 1 && store.objects.Keys == old(store.objects).Keys - {key})
  {
    ghost var fullPath := FullPath(path, name);
    ghost var key := MarkerKey(user, fullPath);
    var created, id := CreateFolder(store, hash, user, user, path, name, marker);
    if !created {
      return false, 0;
    }
    ghost var with := store.objects;
    ghost var at, failures := None, store.failures;
    MarkerIsKey(hash, user, fullPath);
    assert user + "/" in with ==> user + "/" in old(store.objects);
    ghost var found;
    deleted, count, at, found := DeleteFolder(store, hash, user, id, false);
    assert Marks(with, hash, user, id, key);
    if at.Some? {
      FoundIsCreated(with, hash, user, fullPath, found);
    }
    MarkerAdded(old(store.objects), key, marker);
    if deleted && (store.failures == failures || count > 0) {
      MarkerGoes(with, store.objects, key, count, store.failures - failures);
    }
  }

  lemma MarkerIsKey(hash: string -> string, user: string, fullPath: string)
    ensures var key := MarkerKey(user, fullPath);
            key != user + "/" && Owns(user, key) && Matches(hash, user, FolderId(hash, user, fullPath), key)
  {
    PathOfMarker(user, fullPath);
    assert |MarkerKey(user, fullPath)| > |user + "/"|;
  }

  lemma MarkerAdded<V>(objects: Objects<V>, key: string, marker: V)
    ensures OnlyMarker(objects[key := marker], key) <==> OnlyMarker(objects, key)
    ensures objects[key := marker].Keys - {key} == objects.Keys - {key}
  {
  }

  lemma FoundIsCreated<V>(objects: Objects<V>, hash: string -> string, user: string, fullPath: string, marker: string)
    requires Injective(hash) && (user + "/" !in objects || fullPath != user) && LastSlash(fullPath) != 0
    requires Marks(objects, hash, user, FolderId(hash, user, fullPath), marker)
    ensures marker == MarkerKey(user, fullPath) && LocationPrefix(user, Locate(FolderPathOf(user, marker))) == marker
  {
    OnlyItsMarkerMatches(objects, hash, user, fullPath);
    PathOfMarker(user, fullPath);
    RebuiltPrefixIff(user, fullPath);
  }

  lemma MarkerGoes<V>(before: Objects<V>, after: Objects<V>, key: string, count: nat, failures: nat)
    requires key in before && DeletedExactly(before, after, key, false, count, failures) && (failures == 0 || count > 0)
    ensures count == 1 && after.Keys == before.Keys - {key}
  {
    assert HasPrefix(key, key);
    OneFewer(before, after, key);
  }

  lemma OneFewer<V>(before: Objects<V>, after: Objects<V>, key: string)
    requires key in before && (key !in after || |after| < |before|)
    requires forall k | k in before && k != key :: k in after
    requires forall k | k in after :: k in before
    ensures after.Keys == before.Keys - {key} && |before| - |after| == 1
  {
    assert |after.Keys| == |after| && |before.Keys| == |before|;
    assert key in after ==> after.Keys == before.Keys;
    assert after.Keys == before.Keys - {key};
  }

  // ---- renaming, as it stands ----

  function NewPath(oldPath: string, newName: string): string {
    if LastSlash(oldPath) >= 0 then Parent(oldPath) + "/" + newName else newName
  }

  function RenamePlan(user: string, at: Location, newName: string): Rename.Plan {
    Rename.Plan(FolderPrefix(user, at.path), FolderPrefix(user, NewPath(at.path, newName)))
  }

  /** The located folder's parent path goes to the rename loop, for the old and for the new prefix. */
  method RenameFolder<V>(store: Store<V>, hash: string -> string, user: string, id: string, newName: string)
    returns (ok: bool, ghost at: Option<Location>, ghost keys: seq<string>, ghost rounds: seq<Rename.Round>)
    modifies store
    ensures |keys| == |rounds|
    ensures at.None? ==> !ok && store.objects == old(store.objects)
    ensures at.Some? ==> exists k :: Marks(old(store.objects), hash, user, id, k)
                                  && at.value == Locate(FolderPathOf(user, k))
    ensures store.failures == old(store.failures) ==> Rename.AllWork(rounds)
    ensures store.failures == old(store.failures) && !ok ==> forall k :: !Marks(old(store.objects), hash, user, id, k)
    ensures ok && keys != [] ==> IsListing(keys, old(store.objects), FolderPrefix(user, at.value.path))
    ensures at.Some? && at.value.name == newName ==> ok && store.objects == old(store.objects)
    ensures at.Some? && at.value.name != newName ==>
      var plan := RenamePlan(user, at.value, newName);
      store.objects == Rename.After(old(store.objects), plan, keys, rounds, |keys|).objects
    ensures at.Some? && at.value.name != newName ==>
      && (ok ==> forall i | 0 <= i < |rounds| :: rounds[i].copied)
      && var failed := Rename.LeftBehind(rounds) + if ok then 0 else 1;
         failed <= store.failures - old(store.failures) <= failed + 1
  {
    at, keys, rounds := None, [], [];
    var found, listed;
    ghost var marker;
    found, listed, marker := FindFolderPath(store, hash, user, id);
    if found.None? {
      return false, None, [], [];
    }
    at := found;
    if found.value.name == newName {
      return true, found, [], [];
    }
    ok, keys, rounds := Rename.RenameFolderObjects(store, user, found.value.path, NewPath(found.value.path, newName));
  }

  lemma LocationUnderParent(user: string, at: Location)
    ensures LocationPrefix(user, at) == FolderPrefix(user, at.path) + (at.name + "/")
  {
    assert FolderPrefix(user, at.path) + at.name + "/" == FolderPrefix(user, at.path) + (at.name + "/");
  }

  lemma FolderPrefixEnds(user: string, path: string)
    ensures var p := FolderPrefix(user, path); |p| > 0 && p[|p| - 1] == '/'
  {
  }

  /** Every key under the parent moves, siblings included. */
  lemma RenameMovesTheParent(user: string, at: Location, newName: string, rest: string)
    ensures Rename.Target(RenamePlan(user, at, newName), FolderPrefix(user, at.path) + rest)
         == FolderPrefix(user, NewPath(at.path, newName)) + rest
  {
    MovesUnder(RenamePlan(user, at, newName), rest);
  }

  /** The named folder's marker goes where the new name asks in one case only: below a parent, when the new name and
      then the old one spell the same path as the parent's own name and then the new name. */
  lemma RenamedAsAskedIff(user: string, at: Location, newName: string)
    requires newName != ""
    ensures Rename.Target(RenamePlan(user, at, newName), LocationPrefix(user, at))
              == LocationPrefix(user, at.(name := newName))
            <==> at.path != "" && newName + "/" + at.name == Name(at.path) + "/" + newName
  {
    RenameMovesTheParent(user, at, newName, at.name + "/");
    LocationUnderParent(user, at);
    LocationUnderParent(user, at.(name := newName));
    if at.path == "" {
      RootRename(user, at.name, newName);
    } else {
      SiblingPrefixes(user, at.path, newName);
      SameAfter(AboveFolder(user, at.path), newName, at.name, Name(at.path), newName);
    }
  }

  lemma RootRename(user: string, name: string, newName: string)
    requires newName != ""
    ensures FolderPrefix(user, NewPath("", newName)) + (name + "/") != FolderPrefix(user, "") + (newName + "/")
  {
    var s, t := user + "/" + newName + "/" + (name + "/"), user + "/" + (newName + "/");
    assert |s| > |t|;
  }

  /** Between names without slashes the folder keeps its name, below the new path. */
  lemma RenamedFolderKeepsItsName(user: string, at: Location, newName: string)
    requires at.name != newName && LastSlash(at.name) < 0 && LastSlash(newName) < 0
    ensures Rename.Target(RenamePlan(user, at, newName), LocationPrefix(user, at))
         != LocationPrefix(user, at.(name := newName))
  {
    RenameMovesTheParent(user, at, newName, at.name + "/");
    LocationUnderParent(user, at);
    LocationUnderParent(user, at.(name := newName));
    FolderPrefixEnds(user, at.path);
    FolderPrefixEnds(user, NewPath(at.path, newName));
    NamesDiffer(FolderPrefix(user, NewPath(at.path, newName)), at.name, FolderPrefix(user, at.path), newName);
  }

  /** What a folder's prefix and that of a sibling share. */
  function AboveFolder(user: string, path: string): string {
    user + "/" + if LastSlash(path) >= 0 then Parent(path) + "/" else ""
  }

  lemma SiblingPrefixes(user: string, path: string, newName: string)
    requires path != "" && newName != ""
    ensures FolderPrefix(user, path) == AboveFolder(user, path) + Name(path) + "/"
    ensures FolderPrefix(user, NewPath(path, newName)) == AboveFolder(user, path) + newName + "/"
  {
    var i := LastSlash(path);
    if i >= 0 {
      assert path == Parent(path) + "/" + Name(path);
    } else {
      assert path == Name(path);
    }
  }

  lemma SameAfter(base: string, a: string, b: string, c: string, d: string)
    ensures base + a + "/" + (b + "/") == base + c + "/" + (d + "/") <==> a + "/" + b == c + "/" + d
  {
    var x, y := a + "/" + b, c + "/" + d;
    var s, t := base + a + "/" + (b + "/"), base + c + "/" + (d + "/");
    assert s == base + x + "/" && t == base + y + "/";
    assert s[|base|..|s| - 1] == x && t[|base|..|t| - 1] == y;
  }

  lemma MovesUnder(plan: Rename.Plan, rest: string)
    ensures Rename.Target(plan, plan.from + rest) == plan.to + rest
  {
    PrefixOfConcat(plan.from, rest);
    Rename.TargetOf(plan, plan.from + rest);
  }

  lemma NamesDiffer(prefix1: string, name1: string, prefix2: string, name2: string)
    requires |prefix1| > 0 && prefix1[|prefix1| - 1] == '/' && |prefix2| > 0 && prefix2[|prefix2| - 1] == '/'
    requires LastSlash(name1) < 0 && LastSlash(name2) < 0 && name1 != name2
    ensures prefix1 + (name1 + "/") != prefix2 + (name2 + "/")
  {
    var s, t := prefix1 + (name1 + "/"), prefix2 + (name2 + "/");
    assert s[..|s| - 1] == prefix1 + name1 && t[..|t| - 1] == prefix2 + name2;
    LastPart(prefix1, name1);
    LastPart(prefix2, name2);
  }

  /** After a prefix that ends in a slash, a name without slashes is the last part. */
  lemma LastPart(prefix: string, name: string)
    requires |prefix| > 0 && prefix[|prefix| - 1] == '/' && LastSlash(name) < 0
    ensures Name(prefix + name) == name
  {
    var s := prefix + name;
    assert s[|prefix| - 1] == '/';
    assert forall j | 0 <= j < |name| :: s[|prefix| + j] == name[j] != '/';
    assert LastSlash(s) == |prefix| - 1;
  }
}
