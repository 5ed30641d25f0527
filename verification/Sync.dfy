/** Copying object metadata into the database index without losing what people and models wrote there. */
module Sync {
  import opened Bytes
  import opened Paths
  import opened ObjectStore
  import opened Months

  datatype Info = Info(size: int, etag: string, versionId: string, storageClass: string, lastModified: int)

  datatype FileRow = FileRow(
    fileName: string,
    size: int,
    etag: string,
    contentType: string,
    category: string,
    description: string,
    tagsJson: string,
    bucket: string,
    versionId: string,
    storageClass: string,
    lastModified: int,
    updatedAt: int)

  /** The index has one row per user and object key. */
  type Rows = map<(string, string), FileRow>

  function LastPathComponent(key: string): string {
    if LastSlash(key) < 0 || LastSlash(key) + 1 >= |key| then key else key[LastSlash(key) + 1..]
  }

  function TrimQuotes(s: string): string
    decreases |s|
  {
    if |s| > 0 && s[0] == '\"' then TrimQuotes(s[1..])
    else if |s| > 0 && s[|s| - 1] == '\"' then TrimQuotes(s[..|s| - 1])
    else s
  }

  function NewRow(key: string, info: Info, bucket: string, now: int): FileRow {
    FileRow(LastPathComponent(key), info.size, TrimQuotes(info.etag), "", "", "", "", bucket, info.versionId,
            info.storageClass, info.lastModified, now)
  }

  /** On conflict the category, description and tags stay, and the content type unless the new one is not empty. */
  function Merge(existing: FileRow, incoming: FileRow): FileRow {
    incoming.(contentType := if incoming.contentType != "" then incoming.contentType else existing.contentType,
          category := existing.category, description := existing.description, tagsJson := existing.tagsJson)
  }

  function Upsert(rows: Rows, user: string, key: string, row: FileRow): Rows {
    rows[(user, key) := if (user, key) in rows then Merge(rows[(user, key)], row) else row]
  }

  /** What decides which listed keys are synced. */
  datatype Period = Period(year: int, month: int, day: int)

  const EVERYTHING := Period(0, 0, 0)

  function SyncPrefix(user: string, p: Period): string {
    if p.year > 0 && p.month > 0 then MonthPrefix(user, p.year, p.month)
    else if p.year > 0 then user + "/" + Pad(4, p.year) + "/"
    else user + "/"
  }

  /** Which part of the user's keys a period asks for: a month, a year, or all of them. */
  lemma SyncPrefixes(user: string, p: Period)
    ensures p.year > 0 && p.month > 0 ==>
      SyncPrefix(user, p) == user + "/" + Pad(4, p.year) + "/" + Pad(2, p.month) + "/"
    ensures p.year > 0 && p.month <= 0 ==> SyncPrefix(user, p) == user + "/" + Pad(4, p.year) + "/"
    ensures p.year <= 0 ==> SyncPrefix(user, p) == user + "/"
  {
  }

  /** Whether a calendar date passes the filter, which only a full date sets. */
  predicate InPeriod(p: Period, date: (int, int, int)) {
    p.year > 0 && p.month > 0 && p.day > 0 ==> date == (p.year, p.month, p.day)
  }

  /** One sync: whose objects, into which bucket field, at what time; `date` is the UTC calendar. */
  datatype Job = Job(
    user: string,
    objects: Objects<Info>,
    bucket: string,
    now: int,
    period: Period,
    date: int -> (int, int, int))
  {
    function Prefix(): string {
      SyncPrefix(user, period)
    }

    predicate Wanted(key: string)
      requires key in objects
    {
      IsFile(key) && InPeriod(period, date(objects[key].lastModified))
    }

    function Row(key: string): FileRow
      requires key in objects
    {
      NewRow(key, objects[key], bucket, now)
    }
  }

  function SyncOne(rows: Rows, job: Job, key: string, ok: bool): Rows
    requires key in job.objects
  {
    if job.Wanted(key) && ok then Upsert(rows, job.user, key, job.Row(key)) else rows
  }

  /** The index after the first listed keys; `oks` says for each whether its upsert worked. */
  function SyncAll(rows: Rows, job: Job, keys: seq<string>, oks: seq<bool>): Rows
    requires |oks| <= |keys| && forall k | k in keys :: k in job.objects
  {
    if |oks| == 0 then rows
    else SyncOne(SyncAll(rows, job, keys, oks[..|oks| - 1]), job, keys[|oks| - 1], oks[|oks| - 1])
  }

  /** How many upserts failed. */
  function Failed(oks: seq<bool>): nat {
    if |oks| == 0 then 0 else Failed(oks[..|oks| - 1]) + if oks[|oks| - 1] then 0 else 1
  }

  lemma {:induction false} NoneFailed(oks: seq<bool>)
    ensures Failed(oks) == 0 <==> forall i | 0 <= i < |oks| :: oks[i]
  {
    if |oks| > 0 {
      NoneFailed(oks[..|oks| - 1]);
      assert forall i | 0 <= i < |oks| - 1 :: oks[..|oks| - 1][i] == oks[i];
    }
  }

  /** `failures` counts the upserts that did not work. */
  class FileIndex {
    var rows: Rows
    ghost var failures: nat

    constructor ()
      ensures rows == map[] && failures == 0
    {
      rows := map[];
      failures := 0;
    }

    method UpsertRow(user: string, key: string, row: FileRow) returns (ok: bool)
      modifies this
      ensures failures == old(failures) + if ok then 0 else 1
      ensures rows == if ok then Upsert(old(rows), user, key, row) else old(rows)
    {
      ok := *;
      failures := failures + if ok then 0 else 1;
      if ok {
        rows := rows[(user, key) := if (user, key) in rows then Merge(rows[(user, key)], row) else row];
      }
    }

    /** A failed upsert is skipped; a listing that breaks off ends the sync, but what arrived before it stays synced.
        The full sync is the one with no year. */
    method SyncObjectsToDBByDate(store: Store<Info>, user: string, bucket: string, now: int, period: Period,
                                 date: int -> (int, int, int))
      returns (ok: bool, ghost keys: seq<string>, ghost oks: seq<bool>)
      modifies this, store`failures
      ensures user == "" ==> !ok && keys == []
      ensures ok <==> user != "" && store.failures == old(store.failures)
      ensures failures == old(failures) + Failed(oks)
      ensures failures == old(failures) ==> forall i | 0 <= i < |oks| :: oks[i]
      ensures IsPartial(keys, store.objects, SyncPrefix(user, period)) && |oks| == |keys|
      ensures ok ==> IsListing(keys, store.objects, SyncPrefix(user, period))
      ensures rows == SyncAll(old(rows), Job(user, store.objects, bucket, now, period, date), keys, oks)
    {
      keys, oks := [], [];
      if user == "" {
        return false, [], [];
      }
      var prefix := user + "/";
      if period.year > 0 && period.month <= 0 {
        prefix := user + "/" + Pad(4, period.year) + "/";
      }
      if period.year > 0 && period.month > 0 {
        prefix := user + "/" + Pad(4, period.year) + "/" + Pad(2, period.month) + "/";
      }
      var listing, listed := store.ListObjects(prefix);
      keys := listing;
      ghost var job := Job(user, store.objects, bucket, now, period, date);
      for i := 0 to |listing|
        invariant |oks| == i && rows == SyncAll(old(rows), job, keys, oks)
        invariant store.failures == old(store.failures) + if listed then 0 else 1
        invariant failures == old(failures) + Failed(oks)
      {
        assert listing[i] in keys;
        var done := SyncKey(listing[i], store.objects[listing[i]], user, bucket, now, period, date);
        assert (oks + [done])[..i] == oks;
        oks := oks + [done];
      }
      NoneFailed(oks);
      ok := listed;
    }

    /** One round of the loop: folders and other days are skipped. */
    method SyncKey(key: string, info: Info, user: string, bucket: string, now: int, period: Period,
                   date: int -> (int, int, int))
      returns (ok: bool)
      modifies this
      ensures failures == old(failures) + if ok then 0 else 1
      ensures var wanted := IsFile(key) && InPeriod(period, date(info.lastModified));
        rows == if wanted && ok then Upsert(old(rows), user, key, NewRow(key, info, bucket, now)) else old(rows)
      ensures HasSuffix(key, "/") ==> rows == old(rows)
      ensures var otherDay := period.year > 0 && period.month > 0 && period.day > 0
                              && date(info.lastModified) != (period.year, period.month, period.day);
        && (otherDay ==> rows == old(rows))
        && (ok && !otherDay && !HasSuffix(key, "/") ==>
              (user, key) in rows && rows[(user, key)].size == info.size && rows[(user, key)].updatedAt == now)
    {
      if HasSuffix(key, "/") {
        return true;
      }
      if period.year > 0 && period.month > 0 && period.day > 0 {
        if date(info.lastModified) != (period.year, period.month, period.day) {
          return true;
        }
      }
      ok := UpsertRow(user, key, NewRow(key, info, bucket, now));
    }
  }

  // ---- what a sync does to each row ----

  function RowAt(rows: Rows, at: (string, string)): Option<FileRow> {
    if at in rows then Some(rows[at]) else None
  }

  /** The row a sync without failed upserts leaves under one index key, from the store and the old row alone. */
  function RowAfter(rows: Rows, job: Job, at: (string, string)): Option<FileRow> {
    if at.0 == job.user && at.1 in job.objects && HasPrefix(at.1, job.Prefix()) && job.Wanted(at.1)
    then Some(if at in rows then Merge(rows[at], job.Row(at.1)) else job.Row(at.1))
    else RowAt(rows, at)
  }

  lemma SyncOneAt(rows: Rows, job: Job, key: string, at: (string, string))
    requires key in job.objects && HasPrefix(key, job.Prefix())
    ensures RowAt(SyncOne(rows, job, key, true), at)
         == if at == (job.user, key) then RowAfter(rows, job, at) else RowAt(rows, at)
  {
  }

  lemma {:induction false} SyncAllAt(rows: Rows, job: Job, keys: seq<string>, oks: seq<bool>, at: (string, string))
    requires IsListing(keys, job.objects, job.Prefix()) && |oks| <= |keys|
    requires forall i | 0 <= i < |oks| :: oks[i]
    ensures RowAt(SyncAll(rows, job, keys, oks), at)
         == if at.0 == job.user && at.1 in keys[..|oks|] then RowAfter(rows, job, at) else RowAt(rows, at)
  {
    if |oks| > 0 {
      var n := |oks| - 1;
      var before := SyncAll(rows, job, keys, oks[..n]);
      SyncAllAt(rows, job, keys, oks[..n], at);
      assert keys[n] in keys && keys[n] !in keys[..n];
      assert keys[..n + 1] == keys[..n] + [keys[n]];
      SyncOneAt(before, job, keys[n], at);
      if at == (job.user, keys[n]) {
        SameRowAfter(before, rows, job, at);
      }
    }
  }

  lemma SameRowAfter(rows1: Rows, rows2: Rows, job: Job, at: (string, string))
    requires RowAt(rows1, at) == RowAt(rows2, at)
    ensures RowAfter(rows1, job, at) == RowAfter(rows2, job, at)
  {
  }

  /** Every row after a sync, in closed form: the files listed under the prefix get one row each, every other row
      stays, and the order of the listing does not matter. */
  lemma SyncIsPointwise(rows: Rows, job: Job, keys: seq<string>, oks: seq<bool>, at: (string, string))
    requires IsListing(keys, job.objects, job.Prefix()) && |keys| == |oks|
    requires forall i | 0 <= i < |oks| :: oks[i]
    ensures RowAt(SyncAll(rows, job, keys, oks), at) == RowAfter(rows, job, at)
  {
    SyncAllAt(rows, job, keys, oks, at);
    assert keys[..|keys|] == keys;
  }

  /** Which column a synced file's row takes from where: everything the store knows is fresh, what people and models
      wrote is what it was, and a new row has nothing of theirs. */
  lemma SyncedColumns(rows: Rows, job: Job, keys: seq<string>, oks: seq<bool>, key: string)
    requires IsListing(keys, job.objects, job.Prefix()) && |keys| == |oks| && forall i | 0 <= i < |oks| :: oks[i]
    requires key in job.objects && HasPrefix(key, job.Prefix()) && job.Wanted(key)
    ensures var after, info := SyncAll(rows, job, keys, oks), job.objects[key];
      && (job.user, key) in after
      && var row := after[(job.user, key)];
      && row.size == info.size && row.etag == TrimQuotes(info.etag) && row.fileName == LastPathComponent(key)
      && row.bucket == job.bucket && row.versionId == info.versionId && row.storageClass == info.storageClass
      && row.lastModified == info.lastModified && row.updatedAt == job.now
      && ((job.user, key) !in rows ==>
            row.category == row.description == row.tagsJson == row.contentType == "")
      && ((job.user, key) in rows ==> var was := rows[(job.user, key)];
            && row.category == was.category && row.description == was.description && row.tagsJson == was.tagsJson
            && row.contentType == was.contentType)
  {
    SyncIsPointwise(rows, job, keys, oks, (job.user, key));
  }

  ghost predicate AllQuotes(s: string) {
    forall i | 0 <= i < |s| :: s[i] == '\"'
  }

  /** Trimming takes the quotes off both ends, as many as there are, and nothing else. */
  lemma {:induction false} TrimsQuotes(a: string, text: string, b: string)
    requires AllQuotes(a) && AllQuotes(b) && (text != "" ==> text[0] != '\"' && text[|text| - 1] != '\"')
    ensures TrimQuotes(a + text + b) == text
    decreases |a| + |b|
  {
    var s := a + text + b;
    if a != "" {
      assert s[1..] == a[1..] + text + b;
      TrimsQuotes(a[1..], text, b);
    } else if b != "" && text == "" {
      assert s[1..] == a + text + b[1..];
      TrimsQuotes(a, text, b[1..]);
    } else if b != "" {
      assert s[..|s| - 1] == a + text + b[..|b| - 1];
      TrimsQuotes(a, text, b[..|b| - 1]);
    }
  }

  /** The file name is what follows the last slash. */
  lemma FileNameOf(folder: string, name: string)
    requires name != "" && '/' !in name
    ensures LastPathComponent(folder + "/" + name) == name && LastPathComponent(name) == name
  {
    var key := folder + "/" + name;
    assert key[|folder|] == '/' && key[|folder| + 1..] == name;
    assert forall j | |folder| < j < |key| :: key[j] in name;
    assert LastSlash(key) == |folder|;
    assert LastSlash(name) < 0;
  }

  /** What people and models wrote survives, with or without failed upserts. */
  lemma {:induction false} SyncKeepsMetadata(rows: Rows, job: Job, keys: seq<string>, oks: seq<bool>,
                                             at: (string, string))
    requires |oks| <= |keys| && (forall k | k in keys :: k in job.objects) && at in rows
    ensures var rows' := SyncAll(rows, job, keys, oks);
      && at in rows'
      && rows'[at].category == rows[at].category && rows'[at].description == rows[at].description
      && rows'[at].tagsJson == rows[at].tagsJson && rows'[at].contentType == rows[at].contentType
      && (at.0 != job.user || at.1 !in keys ==> rows'[at] == rows[at])
  {
    if |oks| > 0 {
      SyncKeepsMetadata(rows, job, keys, oks[..|oks| - 1], at);
      assert keys[|oks| - 1] in keys;
    }
  }

  lemma RowAfterTwice(rows: Rows, once: Rows, job: Job, later: int, at: (string, string))
    requires RowAt(once, at) == RowAfter(rows, job, at)
    ensures var second := RowAfter(once, job.(now := later), at);
      && (second.Some? <==> at in once)
      && (at in once ==> second.value.(updatedAt := once[at].updatedAt) == once[at])
  {
    assert job.(now := later).Prefix() == job.Prefix();
  }

  /** A second sync of the same store, listed in whatever order, adds no row and changes only the time of update. */
  lemma SyncTwice(rows: Rows, job: Job, keys1: seq<string>, oks1: seq<bool>, keys2: seq<string>, oks2: seq<bool>,
                  later: int, at: (string, string))
    requires IsListing(keys1, job.objects, job.Prefix()) && |keys1| == |oks1| && forall i | 0 <= i < |oks1| :: oks1[i]
    requires IsListing(keys2, job.objects, job.Prefix()) && |keys2| == |oks2| && forall i | 0 <= i < |oks2| :: oks2[i]
    ensures var once := SyncAll(rows, job, keys1, oks1);
            var twice := SyncAll(once, job.(now := later), keys2, oks2);
      && (at in twice <==> at in once)
      && (at in once ==> twice[at].(updatedAt := once[at].updatedAt) == once[at])
  {
    var once := SyncAll(rows, job, keys1, oks1);
    SyncIsPointwise(rows, job, keys1, oks1, at);
    SyncIsPointwise(once, job.(now := later), keys2, oks2, at);
    RowAfterTwice(rows, once, job, later, at);
  }

  lemma MonthRowAfter(rows: Rows, job: Job, year: int, month: int, at: (string, string))
    requires year > 0 && month > 0
    ensures RowAfter(rows, job.(period := Period(year, month, 0)), at)
         == if HasPrefix(at.1, MonthPrefix(job.user, year, month))
            then RowAfter(rows, job.(period := EVERYTHING), at)
            else RowAt(rows, at)
  {
    var p, root := MonthPrefix(job.user, year, month), job.user + "/";
    assert p[..|root|] == root;
    if HasPrefix(at.1, p) {
      assert at.1[..|root|] == at.1[..|p|][..|root|];
    }
  }

  /** Two runs over the same store, one of a month and one of everything, each over its own listing in its own order:
      on keys under the month's prefix they leave the same rows, elsewhere the month's run leaves what was there. */
  lemma MonthSyncIsRestriction(rows: Rows, job: Job, year: int, month: int, keysM: seq<string>, oksM: seq<bool>,
                               keysF: seq<string>, oksF: seq<bool>, at: (string, string))
    requires year > 0 && month > 0
    requires IsListing(keysM, job.objects, MonthPrefix(job.user, year, month)) && |keysM| == |oksM|
    requires IsListing(keysF, job.objects, job.user + "/") && |keysF| == |oksF|
    requires forall i | 0 <= i < |oksM| :: oksM[i]
    requires forall i | 0 <= i < |oksF| :: oksF[i]
    ensures RowAt(SyncAll(rows, job.(period := Period(year, month, 0)), keysM, oksM), at)
         == if HasPrefix(at.1, MonthPrefix(job.user, year, month))
            then RowAt(SyncAll(rows, job.(period := EVERYTHING), keysF, oksF), at)
            else RowAt(rows, at)
  {
    SyncIsPointwise(rows, job.(period := Period(year, month, 0)), keysM, oksM, at);
    SyncIsPointwise(rows, job.(period := EVERYTHING), keysF, oksF, at);
    MonthRowAfter(rows, job, year, month, at);
  }
}
