# NoteVault: a verified model of its state-keeping core

NoteVault stores notes in an S3-style object store, shares them through records kept in a database and cached in a
key-value store, and restarts itself when its configuration file changes. This project models the parts where two
pieces of state must agree, and proves that they do, or exactly when they do not.

| file | what it models |
|---|---|
| `Base64.dfy`, `Decimal.dfy`, `Envelope.dfy` | the `NVTTL1:` value wrapper down to its bytes: padded base64 (section 4 of RFC 4648), decimal printing, and the JSON object (section 4 of RFC 8259) with its own printer and parser; whole-second expiry |
| `MemoryKV.dfy`, `MemoryKVSteps.dfy` | the in-memory store with lazy expiry, as a class over arrays that refines a timed map, and as interleaved load, store and delete steps |
| `CacheLayer.dfy`, `CacheRuns.dfy`, `CacheSteps.dfy`, `CacheCalls.dfy` | the generic cache with its own nanosecond expiry, `GetOrSet`, `Clear` and cleanup: as a class, in serial runs, with every store call of concurrent callers and of the cleanup a separate step, and how a call without interruption does in steps what it does in one piece |
| `ShareModel.dfy`, `ShareService.dfy`, `ShareSteps.dfy`, `ShareCalls.dfy` | shares over database and cache: the pure rules, one call at a time as a class, every database or cache call as its own step in any interleaving with any failure, and how a call without interruption does in steps what it does in one piece |
| `ObjectStore.dfy`, `Rename.dfy`, `Folders.dfy`, `Moves.dfy` | folders as marker keys in a flat store: the rename loop, folder IDs, deletion, batch moves |
| `Months.dfy`, `Sync.dfy` | object keys by month, and copying object metadata into the database index |
| `Restart.dfy` | configuration watcher, one-slot restart channel, restart loop and the shutdown handshake of each app |
| `ResponseCache.dfy` | capturing a response body while it is sent, storing it and replaying it |

Time is an unbounded integer of nanoseconds since the Unix epoch and is always a parameter. Every call to a store or
database may fail. `dafny verify dfyconfig.toml` checks the whole project.

## Where the code differs from what one might expect

- An invalid reload does not keep the old configuration (docs/hot-reload.md:161 says it does): the global is overwritten
  before it is validated, and `NewApp` goes on reading it until it ends. An app is built from validated configuration only,
  exactly when the last load before its `NewApp` began had passed by then, or there was none, and no load falls between
  its begin and its end (`Restart.BuiltFromValidIff`, with inputs in `Restart.InvalidReloadIsUsed` and
  `Restart.ReloadDuringNewApp`).
- A deleted share can go on being found. It is found by some later call, in some continuation, exactly when it has not
  expired and either an entry of it is still given out or a call still carries its record to the cache
  (`ShareSteps.DeletedShareServedIff`). Inputs: a deletion between the row and the cache entry of a share created without
  expiry, which is cached for ever (`ShareSteps.DeletedShareServedForever`); a cache delete that fails; a read whose
  backfill comes after the deletion. An entry written later than creation lasts half an hour at most
  (`ShareSteps.StaleEntriesEnd`), but an edit of the deleted share meets that entry, updates no row without an error, and
  writes the entry anew (`ShareSteps.EditRevives`), so it can be kept up for as long as one likes
  (`ShareSteps.StaleEntryLastsForever`).
- `RenameFolder` hands the folder's parent path to the rename loop, so everything under the parent moves. The named
  folder ends up where the new name asks exactly when a word equation on the names holds (`Folders.RenamedAsAskedIff`);
  between names without slashes it never does (`Folders.RenamedFolderKeepsItsName`).
- The rename loop can lose objects. With working calls and distinct contents it loses none exactly when the prefixes
  differ and no copy lands on an object still needed (`Rename.NothingLostIff`); a folder renamed onto its own prefix is
  destroyed (`Rename.EqualPrefixesDestroy`), and one moved into itself can lose an object (`Rename.LaterKeyCanBeLost`).
  Renaming there and back restores the store exactly when the new prefix was unused (`Rename.RenameBackIff`).
- A value stored without a lifetime comes back exactly when it does not start with the magic prefix
  (`Envelope.RawRoundTrip`, `Envelope.PrefixFoolsReader`).
- In the concurrent in-memory store a miss is spurious exactly when the entry had been lost before the load and its write
  still shows (`MemoryKVSteps.AnswersAreWrites`). A fresh write without expiry can be lost exactly when a call under way
  has loaded older bytes that run out, or already has to delete (`MemoryKVSteps.FreshWriteLosableIff`, with an input in
  `MemoryKVSteps.FreshWriteCanBeLost`).
- The cleanup of the generic cache, and the expiry delete of its Get, are a read and then a delete. Run alone they are
  invisible (`CacheRuns.CleanupIsInvisible`). Beside other callers a delete is noticed exactly when the entry still answers
  (`CacheLayer.DropUnseenIff`), and a fresh value without expiry can be erased exactly when some call under way has read an
  older item that expires, or already has to delete (`CacheSteps.FreshWriteLosableIff`, with an input in
  `CacheSteps.CleanupCanEraseFreshSet`). With one getter per key no answer of `GetOrSet` is wrong for it
  (`CacheSteps.AnswersAreTheGetters`).
- A batch of moves can lose objects: with working calls and distinct contents it keeps every content exactly when no item
  finds both its source and its destination in the store at its turn (`Moves.BatchKeepsIff`).
- `MemoryKV.Keys` matches its pattern literally, so clearing a cache over it takes away the key `*` and nothing else: no
  key answers afterwards exactly when no other key answered before (`CacheLayer.ClearOverMemory`).
- `slices.Compact` drops only adjacent duplicates: an updated user list is free of duplicates exactly when equal users
  stand together in the request (`ShareUsers.CompactRemovesDuplicatesIff`).
- A cached response keeps one value of each header: a header is replayed whole exactly when it has one value
  (`ResponseCache.ReplayedWholeIff`).
- A folder path is rebuilt from its parent and name except when its last slash is its first character
  (`Folders.RebuiltPrefixIff`); an object under the bare user key passes for the folder named like the user and for no
  other (`Folders.BareKeyMatchesIff`).
- The deletion count of a working call is the number of objects that went exactly when the call was recursive, or removed
  nothing, or some key showed as itself in the listing (`Folders.DeleteFolderObjects`, with an input in
  `Folders.CountCanLie`); for a folder found by a marker whose path is rebuilt it always is (`Folders.DeleteFolder`).
- Object keys print the year as a date layout does and month listings as a padded integer: the two agree except for the
  years -999 to -1 (`Months.StampIsPadIff`).

## Model

| member | source | states |
|---|---|---|
| `Base64.RoundTrip` | pkg/internal/storage/kv/ttl.go:13-16 | the byte field of the wrapped record, printed in padded base64, parses back to the same bytes, for every byte string |
| `Base64.GroupIsNumber` | pkg/internal/storage/kv/ttl.go:13-16 | three bytes and their four characters are one and the same number, in base 256 and in base 64 |
| `Decimal.PrintNatValue` | pkg/internal/storage/kv/ttl.go:15 | the printed expiry number has the value it was printed from |
| `Envelope.MarshalRoundTrip` | pkg/internal/storage/kv/ttl.go:13-16 | unmarshalling the marshalled record gives the same bytes, nil-ness and expiry second, with the expiry field left out when it is zero |
| `Envelope.MarshalSamples` | pkg/internal/storage/kv/ttl.go:11-16 | the exact text of the prefix, of a small envelope with an expiry, and of one around nil without |
| `Envelope.WrappedRoundTrip` | pkg/internal/storage/kv/ttl.go:18-54 | a value encoded with a positive lifetime decodes to itself exactly while the current second is before its expiry second, and as expired from then on |
| `Envelope.RawRoundTrip` | pkg/internal/storage/kv/ttl.go:18-54 | without a lifetime, decoding shows the original bytes if and only if they do not start with the magic prefix |
| `Envelope.PrefixFoolsReader` | pkg/internal/storage/kv/ttl.go:39-54 | two concrete raw values that the decoder refuses or unwraps |
| `Envelope.ExpiryWindow` | pkg/internal/storage/kv/ttl.go:25-51 | a value is dead at every instant from write+lifetime on and live up to one second before; a deadline within the first second of the epoch never comes |
| `Envelope.DeathIsFinal` | pkg/internal/storage/kv/ttl.go:39-54 | bytes that decode as expired decode as expired at every later instant |
| `TimedMap.ObserveIsTimed` | pkg/internal/storage/kv/ttl.go:18-54 | a write whose bytes cannot be mistaken for an envelope shows its own bytes exactly while it lives and a miss after; any other write never shows its own bytes |
| `TimedMap.InterpretEnvelope` | pkg/internal/storage/kv/ttl.go:39-54 | any bytes that carry the prefix are read as an envelope: a lone prefix is an error, and an envelope shows what it carries up to its expiry second |
| `MemoryKV.MemoryKV.Get` | pkg/internal/storage/kv/memory.go:21-49 | answers what the timed map answers, in a fresh array; an expired entry is deleted, which leaves the timed map as it was |
| `MemoryKV.MemoryKV.Set` | pkg/internal/storage/kv/memory.go:51-64 | the timed map gains exactly this write, and the store keeps a copy of its own |
| `MemoryKV.MemoryKV.Delete` | pkg/internal/storage/kv/memory.go:66-70 | the timed map loses exactly this key |
| `MemoryKV.MemoryKV.Exists` | pkg/internal/storage/kv/memory.go:72-94 | true exactly when the timed map holds a value, an error exactly when the envelope is malformed, so it agrees with Get |
| `MemoryKV.MemoryKV.Lists` | pkg/internal/storage/kv/memory.go:110-119 | one entry of the range: listed unless expired, and deleted exactly if expired |
| `MemoryKV.MemoryKV.Keys` | pkg/internal/storage/kv/memory.go:96-125 | lists, each once, matching keys that the timed map showed at the start, and all that it still shows at the end; exact when the clock stands still |
| `MemoryKV.ScribbleOnBuffers` | pkg/internal/storage/kv/memory.go:44-61 | overwriting the caller's buffer after Set, and the slice a Get returned, changes no later answer: it is what the bytes as they were at Set show, for every lifetime and clock |
| `MemoryKVSteps.StepKeepsInv` | pkg/internal/storage/kv/memory.go:22-122 | every step of every call keeps the store equal to the timed map less some lost entries |
| `MemoryKVSteps.GetCall` | pkg/internal/storage/kv/memory.go:21-49 | the three steps of a Get run through answer what the store holds, take it out exactly if it has run out, and agree with the timed map when nothing was lost |
| `MemoryKVSteps.SetCall` | pkg/internal/storage/kv/memory.go:51-64 | the two steps of a Set run through put the encoded value under its key and change nothing else |
| `MemoryKVSteps.DeleteCall` | pkg/internal/storage/kv/memory.go:66-70 | after a Delete the key is gone and every other one is as it was |
| `MemoryKVSteps.AnswersAreWrites` | pkg/internal/storage/kv/memory.go:22-122 | in every interleaving an answer is what the write current at the call's load shows at its decode, or a miss if the store had lost that write; a miss is spurious if and only if the entry was lost and its write still shows |
| `MemoryKVSteps.WriteIsLostIff` | pkg/internal/storage/kv/memory.go:34-70 | while a write still shows and its key is not set or deleted again, its entry is lost if and only if a call under way when it was in place, with bytes past their deadline, performs its lazy delete |
| `MemoryKVSteps.FreshWriteLosableIff` | pkg/internal/storage/kv/memory.go:34-64 | a clean write without expiry is lost in some continuation if and only if some call under way has to delete the key or holds older bytes of it that run out |
| `MemoryKVSteps.FreshWriteCanBeLost` | pkg/internal/storage/kv/memory.go:34-42 | a concrete run after which a write without expiry can be erased |
| `ShareUsers.RemoveInPlace` | pkg/internal/service/shares.go:351-358 | the filter that writes into the array it reads leaves, in its first cells, the list without the target in order, and no cell past the list changed |
| `ShareUsers.WithoutCounts` | pkg/internal/service/shares.go:351-358 | everyone but the target stays as often as before, and the target is gone |
| `ShareUsers.WithoutKeepsNoDuplicates` | pkg/internal/service/shares.go:351-358 | removing keeps a duplicate-free list duplicate-free |
| `ShareUsers.AddThenRemove` | pkg/internal/service/shares.go:322-358 | adding keeps a duplicate-free list duplicate-free, and removing a user who was absent before the addition undoes it |
| `ShareUsers.Compact` | pkg/internal/service/shares.go:295-296 | the new list names the same users and no two equal ones stand side by side |
| `ShareUsers.CompactRemovesDuplicatesIff` | pkg/internal/service/shares.go:295-296 | the new list is duplicate-free if and only if equal users stand together in the request |
| `ShareUsers.CompactCanKeepDuplicates` | pkg/internal/service/shares.go:295-296 | a concrete request that keeps a duplicate |
| `ShareModel.CacheWindow` | pkg/internal/service/shares.go:541-559 | an entry given a positive lifetime is dead by the earlier of the share's expiry and half an hour, ten minutes for a share without one, and alive up to a second before; lifetime 0 goes exactly to shares already over, which are not served either |
| `ShareModel.EditsAsAsked` | pkg/internal/service/shares.go:280-358 | replacing takes the flag and the users of the request; adding puts the user in the list once and removing takes it out, and both leave the flag and everyone else alone |
| `ShareService.ShareService.GetShareCached` | pkg/internal/service/shares.go:490-530 | over a coherent cache, whatever cache calls fail, the answer is the database's own at one of the two clock readings, or a database error, and the cache stays coherent; a cached share that is not over is answered from the cache alone; a found share is cached with its own lifetime and an expired one dropped unless the calls for it fail |
| `ShareService.ShareService.CreateShare` | pkg/internal/service/shares.go:55-114 | the row is inserted unless the request is rejected, the ID is taken or the database fails; it has the owner, keys, download flag and password hash of the request, runs out that many whole days after its creation or never, is open to anonymous visitors exactly without a password, and has the owner as its only user; the entry is written with what is left of the share's life as its lifetime, over three clock readings, and the cache stays coherent |
| `ShareService.ShareService.EditPermissions` | pkg/internal/service/shares.go:280-367 | the edit ends and changes the row as the database alone decides, or fails with the database and changes nothing; coherence is lost exactly when the refresh fails while an entry is cached and the edit changed something |
| `ShareService.ShareService.DeleteShare` | pkg/internal/service/shares.go:148-174 | a delete is done if and only if the user owns the undeleted share and the database works, and otherwise changes no row; coherence is lost exactly when the cache delete fails while an entry is cached |
| `ShareService.OneShareChanged` | pkg/internal/service/shares.go:411-417 | after a change to one share's row and entry the cache is coherent if and only if that share is |
| `ShareService.OneShareLives` | pkg/internal/service/shares.go:55-174 | five calls on one share: it is created as requested, an edit shows at the next read, and once deleted it is not found; strictly after its expiry an edit and a read find it over |
| `ShareSteps.MoveGenuine` | pkg/internal/service/shares.go:490-559 | whatever step a call takes, what it writes to the database or cache and what it holds afterwards agrees with the created row |
| `ShareSteps.StepKeepsInv` | pkg/internal/service/shares.go:100-578 | every step, failing or not, keeps each cached, held and answered record in agreement with the row created under its ID, and never rewrites history |
| `ShareSteps.CacheNeverForges` | pkg/internal/service/shares.go:100-578 | after any interleaving of creations, reads, edits, deletions, lost entries and failures, each cached or answered record carries exactly the owner, keys, times, download flag and password hash of the row created under its ID |
| `ShareSteps.StaleEntriesEnd` | pkg/internal/service/shares.go:541-559 | an entry not written at creation that is still served was written less than half an hour ago |
| `ShareSteps.MoveNeedsSource` | pkg/internal/service/shares.go:490-559 | of a deleted share, only a call that carries the record or meets a living entry goes on to write, carry or find it |
| `ShareSteps.StepStaysQuiet` | pkg/internal/service/shares.go:100-578 | a deleted share with no living entry and no call that carries it, or past its expiry, stays so under every step, and no new call finds it |
| `ShareSteps.DeletedShareServedIff` | pkg/internal/service/shares.go:148-174 | in every reachable state a deleted share is found by a later call in some continuation if and only if it has not expired and an entry of it is given out or a call carries its record to the cache |
| `ShareSteps.EditRevives` | pkg/internal/service/shares.go:307-333 | an edit of a deleted share that is still cached works, changes no row and writes the entry anew with a new lifetime |
| `ShareSteps.StaleEntryLastsForever` | pkg/internal/service/shares.go:307-333 | a stale entry of a deleted share without expiry can be kept alive past any instant |
| `ShareSteps.DeletedShareServedForever` | pkg/internal/service/shares.go:71-111 | a run in which a share without expiry is deleted between its row and its cache entry, and a read finds it however much later |
| `ShareCalls.CreateCall` | pkg/internal/service/shares.go:55-114 | a creation run through step by step, whichever of its calls fail, ends with the answer, row and entry of the creation in one piece |
| `ShareCalls.ReadCall` | pkg/internal/service/shares.go:490-530 | over a coherent cache a read run through answers what the database alone does, or a database failure, changes no row and at most its own entry, and leaves a found share cached and an expired one dropped when the cache works |
| `ShareCalls.HitAnswers` | pkg/internal/service/shares.go:490-505 | in any state a cached share that is not over answers a read by itself, whatever the database does |
| `ShareCalls.EditCall` | pkg/internal/service/shares.go:280-367 | over a coherent cache an edit run through ends and changes the row as the database alone decides, or with a database failure; when done with a working cache the edited record is the one cached |
| `ShareCalls.DeleteCall` | pkg/internal/service/shares.go:148-174 | in any state a delete run through answers as the database alone decides, or with a database failure, marks exactly this row, and with a working cache takes the share's entry out |
| `ShareCalls.SerialRunsAreCoherent` | pkg/internal/service/shares.go:55-530 | over runs of whole calls with a working cache, lost entries and database failures allowed, every cached record equals its undeleted row |
| `Rename.RenameFolderObjects` | pkg/internal/service/file_helper.go:251-312 | the store is what the rounds over the listing leave; the failed calls are exactly the removes that left a copied object behind and, if the loop ends with an error, the one listing or copy that ended it, so a failed remove never stops the loop; it ends well only with every object copied |
| `Rename.TargetInjective` | pkg/internal/service/file_helper.go:284-286 | different keys under the old prefix get different new keys |
| `Rename.NeverLosesAnObject` | pkg/internal/service/file_helper.go:283-309 | at every moment of the loop, between copy and remove too and with any failures, each listed object's content is under its old or new key, every other object is unchanged and only new keys are added, provided no copy lands on an object still needed |
| `Rename.NothingLostIff` | pkg/internal/service/file_helper.go:283-309 | with working calls, a non-empty listing and pairwise distinct contents, the loop loses nothing if and only if the prefixes differ and no copy lands on an unlisted object or on one listed later |
| `Rename.ReachedWhileRunning` | pkg/internal/service/file_helper.go:283-309 | after n rounds the first n objects are at their new keys, removed sources are gone, the later ones are in place and everything else is as before |
| `Rename.NeverAborts` | pkg/internal/service/file_helper.go:298-308 | only a failed copy stops the loop, whatever the prefixes |
| `Rename.LoopIsSimultaneous` | pkg/internal/service/file_helper.go:251-312 | without failures and without clobbering, the in-order loop equals moving all keys under the old prefix at once |
| `Rename.UnusedPrefixIsSafe` | pkg/internal/service/file_helper.go:251-286 | between prefixes neither of which extends the other, an unused new prefix rules out clobbering in any listing order |
| `Rename.RenamedAt` | pkg/internal/service/file_helper.go:283-309 | where each key of a simultaneous rename comes from and goes |
| `Rename.RenameBackIff` | pkg/internal/service/file_helper.go:251-312 | renaming there and back restores the store if and only if nothing was under the new prefix before |
| `Rename.LoopThereAndBack` | pkg/internal/service/file_helper.go:251-312 | the loop run there and back over any two listings restores the store |
| `Rename.EqualPrefixesDestroy` | pkg/internal/service/file_helper.go:283-309 | with equal prefixes and copies that work the loop removes every listed object |
| `Rename.LaterKeyCanBeLost` | pkg/internal/service/file_helper.go:283-309 | a concrete folder moved into itself that loses an object |
| `Folders.CreateFolder` | pkg/internal/service/files_folder.go:15-56 | the marker is put under owner, path and name in that order, for the request's user or else the caller, and the ID is the hash of the same string without the last slash |
| `Folders.FindFolderPath` | pkg/internal/service/file_helper.go:209-249 | the answer is the location of a marker with this ID; there is none only if no key matches or the listing broke off |
| `Folders.IdMatchesItsMarker` | pkg/internal/service/file_helper.go:229-236 | with an injective hash an ID is matched by the marker it was made for and by no other key than the bare user key |
| `Folders.BareKeyMatchesIff` | pkg/internal/service/file_helper.go:229-236 | with an injective hash an object under the bare user key is matched by an ID if and only if it is that of the folder named like the user |
| `Folders.RebuiltPrefixIff` | pkg/internal/service/files_folder.go:143-149 | splitting a full path and joining it again gives its marker if and only if its last slash is not its first character |
| `Folders.DeleteFolderObjects` | pkg/internal/service/file_helper.go:314-356 | with a whole listing it refuses exactly a non-recursive delete of more than one entry; the count falls short of the listing by exactly the failed removes; it is the number of objects gone if and only if the call was recursive, or nothing was removed, or some key under the prefix shows as itself |
| `Folders.EntryOfOther` | pkg/internal/service/file_helper.go:321-341 | in a delimited listing every key but the marker shows as an entry other than the marker |
| `Folders.LoneMarkerIff` | pkg/internal/service/file_helper.go:337-341 | with its marker in place a folder lists at most one entry if and only if nothing else lies under it at any depth |
| `Folders.CountIsExactIff` | pkg/internal/service/file_helper.go:321-355 | removing listed names takes as many objects as names if and only if the listing is recursive, or nothing was removed, or some key under the prefix shows as itself |
| `Folders.CountCanLie` | pkg/internal/service/file_helper.go:321-355 | a working delete of a concrete folder without a marker counts one and takes no object |
| `Folders.RemovedIsExact` | pkg/internal/service/file_helper.go:314-356 | removing listed names removes only keys under the prefix, all of them when no call fails, and non-recursively only a lone marker |
| `Folders.DeleteFolder` | pkg/internal/service/files_folder.go:126-170 | with its marker in place and no failing call it goes through if and only if it is recursive or the marker is alone; then it deletes exactly and counts the objects gone, in particular for every marker whose path is rebuilt |
| `Folders.CreateThenDelete` | pkg/internal/service/files_folder.go:15-170 | deleting by the ID that creation returned, with no failing call, works if and only if nothing else lies under the folder, and then removes exactly the created marker; an object under the bare user key does not disturb it unless the folder is named like the user |
| `Folders.RenameFolder` | pkg/internal/service/files_folder.go:58-124 | a folder already of that name is left alone; otherwise the rename loop runs on the parent path, with its accounting: apart from the search, what fails is removes of copied objects and the one call that ends it, and it ends well only with every object copied |
| `Folders.RenamedAsAskedIff` | pkg/internal/service/files_folder.go:76-104 | for a non-empty new name, which the request demands, the named folder's marker goes where it asks if and only if it has a parent and new name, slash, old name is the same string as parent name, slash, new name |
| `Folders.RenamedFolderKeepsItsName` | pkg/internal/service/files_folder.go:76-104 | between names without slashes the named folder's marker does not go to the new name |
| `Moves.MoveItem` | pkg/internal/service/files_operations.go:214-269 | one item succeeds if and only if both keys are under the user's root and neither the copy nor the remove fails; an item between the user's own keys costs exactly one failed call if it does not succeed, any other none |
| `Moves.MoveFiles` | pkg/internal/service/files_operations.go:202-278 | each item runs on the store its predecessors left, success and failure counts match the results, only items between the user's own keys succeed, and the failed store calls are as many as the others of those: the batch goes on after a failure, and all of them succeed if and only if no store call fails |
| `Moves.MoveLosesIff` | pkg/internal/service/files_operations.go:239-269 | an item's content is under neither key afterwards if and only if source and destination are the same key and both calls work |
| `Moves.OthersUntouched` | pkg/internal/service/files_operations.go:221-237 | no batch changes an object of another user |
| `Moves.BatchLosesNothing` | pkg/internal/service/files_operations.go:214-270 | a batch of independent moves loses no object, whichever calls fail |
| `Moves.BatchLosesNothingBetween` | pkg/internal/service/files_operations.go:239-260 | nor between the copy and the remove of an item |
| `Moves.BatchKeepsIff` | pkg/internal/service/files_operations.go:214-270 | with working calls and pairwise distinct contents a batch keeps every content if and only if no item between the user's own keys finds both its source and its destination in the store at its turn, which the keys alone decide |
| `Months.PadInjective` | pkg/internal/service/files.go:59-60 | zero-padded numbers of one width are equal only for equal integers, negative and overlong ones included |
| `Months.MonthsDisjoint` | pkg/internal/service/files.go:59-60 | one key lies under the prefix of at most one year and month |
| `Months.StampIsPadIff` | pkg/internal/service/files.go:59-60 | the year printed by the date layout of the key reads like the padded integer of the listing if and only if it is the same year and not between -999 and -1 |
| `Months.ListFilesByMonth` | pkg/internal/service/files.go:47-91 | lists, each once, exactly the keys under the month's prefix that do not end in a slash, unless there is no user or the listing fails |
| `Months.ListedInItsMonthOnly` | pkg/internal/service/file_helper.go:27-34 | an uploaded key is listed for a year and month if and only if they are those of its build time, its name is neither empty nor ends in a slash, and the year is not between -999 and -1 |
| `Months.OrdinaryKey` | pkg/internal/service/file_helper.go:27-34 | in the years 0 to 9999 the key is user, four digits of the year, two of the month and the file name, and the month's prefix is the same without the name |
| `Sync.FileIndex.SyncObjectsToDBByDate` | pkg/internal/service/files.go:264-338 | the index is what upserting the arrived keys one by one leaves, even when the listing breaks off, and exactly as many upserts failed as were skipped over; with no year it is the full sync |
| `Sync.FileIndex.SyncKey` | pkg/internal/service/files.go:227-259 | folder keys and other days are skipped, any other key is upserted with its own metadata |
| `Sync.SyncedColumns` | pkg/internal/service/files.go:227-259 | the row of a synced file has the object's size, trimmed ETag, last key component, version, storage class and times, the bucket and the time of the sync; category, description, tags and content type are those of the row before it, or empty |
| `Sync.TrimsQuotes` | pkg/internal/service/files.go:242 | trimming an ETag takes the quotes off both ends, as many as there are, and nothing else |
| `Sync.FileNameOf` | pkg/internal/service/files.go:340-352 | the file name is what follows the last slash |
| `Sync.SyncIsPointwise` | pkg/internal/service/files.go:209-338 | without failed upserts each row after a sync is given by its key alone: one merged or new row for each wanted object, every other row unchanged, in any listing order |
| `Sync.SyncKeepsMetadata` | pkg/internal/service/files.go:354-378 | category, description, tags and content type of an existing row survive every sync, and rows of unlisted keys do not change |
| `Sync.SyncTwice` | pkg/internal/service/files.go:209-338 | a second sync of the same store adds no row and changes only the update time |
| `Sync.MonthSyncIsRestriction` | pkg/internal/service/files.go:280-288 | a month's sync and a full sync over the same store, each over its own listing, leave the same rows on keys under the month's prefix; elsewhere the month's sync leaves what was there |
| `App.ShutdownKeeps` | pkg/app/app.go:178-208 | a shutdown step tells one more server to stop, and the last one leaves the app stopped |
| `App.StepKeeps` | pkg/app/app.go:125-171 | no step of an app undoes its shutdown |
| `App.StepsRunOut` | pkg/app/app.go:125-171 | every step an app takes brings it nearer to the return of Run |
| `App.StoppedAppGoesOn` | pkg/app/app.go:155-208 | an app that was shut down always has a next step until Run returns: the done value is not lost |
| `App.ServesUntilDown` | pkg/app/app.go:125-153 | an idle server that was not told to stop comes to hold its port, and only its own failure or the shutdown of that server takes it away |
| `Restart.LoopStepKeeps` | pkg/cmd/cmd.go:19-54 | every step of watcher, loop and apps keeps a validated reload remembered |
| `Restart.NoReloadIsLost` | pkg/configs/config.go:183-215 | once the callback step of a validated reload is over, a restart is pending, the next app is yet to be built, the newest one was begun after that reload was loaded, or the loop is over; restarts never exceed validated reloads |
| `Restart.RestartHappens` | pkg/cmd/cmd.go:31-53 | in every run with a pending restart, steps of the loop alone stop the current app and begin the next one on a configuration at least as new as the reload, with exactly one restart more |
| `Restart.ReloadTakesEffect` | pkg/configs/config.go:190-215 | in every run with an app running, a reload that passes validation signals the loop, and steps of the loop alone then begin the next app on that configuration and no other, the former one stopped |
| `Restart.NewAppServes` | pkg/app/app.go:125-153 | a finished NewApp gives the loop one more app, of one server or two with metrics, each of which can come to hold its port |
| `Restart.OneAppHoldsPorts` | pkg/cmd/cmd.go:31-53 | two apps never hold ports at the same time, even if an old server starts late |
| `Restart.ReplacedAppsReturn` | pkg/cmd/cmd.go:47-51 | the Run of every replaced app can always move nearer to its return on its own |
| `Restart.ExitOnlyAfterShutdown` | pkg/cmd/cmd.go:40-46 | the command ends only after every server of its last app was told to stop; a server that fails to start does not end it |
| `Restart.SignalEndsCommand` | pkg/cmd/cmd.go:40-46 | from every waiting state, steps of the current app and the loop alone can end the command |
| `Restart.VerdictIsTold` | pkg/configs/config.go:190-207 | at every point of every run the global configuration has passed validation if and only if its last load has passed since, or there was none, and is refused if and only if that load was refused |
| `Restart.BuiltFromValidIff` | pkg/app/app.go:46-123 | in every run the newest NewApp read validated configuration only, if and only if the last load before it began had passed by then, or there was none, and no load fell between its begin and its end; it read a refused one if and only if that load had been refused or a refusal fell in between |
| `Restart.InvalidReloadIsUsed` | pkg/configs/config.go:194-205 | a run in which the next app is built from a configuration that was refused |
| `Restart.ReloadDuringNewApp` | pkg/configs/config.go:194-205 | a run in which an app begun on a good configuration reads a refused one before it is built |
| `CacheLayer.DropUnseenIff` | pkg/cache/cache.go:85-88 | deleting an entry changes some Get, now or later, if and only if the entry still answers |
| `CacheLayer.LayersAgree` | pkg/cache/cache.go:67-138 | without a positive lifetime a value is served for ever; with one, at least to within a second of it and no longer, by the store's whole seconds, or with local expiry on to the nanosecond |
| `CacheLayer.Cache.Get` | pkg/cache/cache.go:67-104 | run alone, it answers the live value, deletes an entry past its local expiry, and that delete is invisible to every later Get |
| `CacheLayer.Cache.GetOrSet` | pkg/cache/cache.go:150-172 | without failures a live value is answered and nothing changes, and after a miss the getter's answer is given and stored with the given lifetime; no other key changes; if every stored value is its key's getter value it stays so, and the answer is the getter's whatever store calls fail |
| `CacheLayer.Cache.Clear` | pkg/cache/cache.go:174-189 | deletes exactly what is listed, so empties the store if and only if the listing holds every key; reports an error exactly when a delete fails, with the keys before it gone |
| `CacheLayer.Cache.RunCleanupOnce` | pkg/cache/cache.go:222-250 | a pass run alone, with any failures and a clock that moves on, changes no later Get and nothing at all without local expiry; at most one listed entry past its local expiry is left for each failed call, so the pass goes on after a failure |
| `CacheRuns.CleanupIsInvisible` | pkg/cache/cache.go:222-250 | in serial runs cleanup passes anywhere leave every answer as in the run without them |
| `CacheSteps.AnswersAreTheGetters` | pkg/cache/cache.go:67-172 | with one getter per key every GetOrSet answers the getter's value, in every interleaving of the single store calls of concurrent callers and of the cleanup, with any failures, deletes and expiries |
| `CacheSteps.WriteIsLostIff` | pkg/cache/cache.go:85-88 | while a write is not past its local expiry and its key is not set or deleted again, its entry is lost if and only if a call under way when it was in place, having read an item past its expiry, deletes after it |
| `CacheSteps.FreshWriteLosableIff` | pkg/cache/cache.go:222-250 | with local expiry on, a write without expiry is lost in some continuation if and only if some call under way, a cleanup pass included, has to delete the key or read an older item that expires |
| `CacheSteps.CleanupCanEraseFreshSet` | pkg/cache/cache.go:233-247 | a concrete run in which a cleanup pass read an old item before a Set whose value it can then erase |
| `CacheCalls.FetchCall` | pkg/cache/cache.go:150-172 | a GetOrSet run through step by step answers the live value it got and leaves the store alone; any other answers the getter's value, stores it if the set works, and deletes the expired entry it got if the delete works |
| `CacheCalls.FetchIsSerial` | pkg/cache/cache.go:150-172 | its answer and store are those of the one step of the serial runs |
| `CacheCalls.LiveItemIsAnswered` | pkg/cache/cache.go:85-104 | whatever runs in between, a GetOrSet that got an item answers its value at its next step, never the getter's, unless local expiry has caught up with it |
| `CacheCalls.SweepCall` | pkg/cache/cache.go:233-247 | one key of a pass run through takes the entry out exactly if it is past its local expiry and the calls work |
| `CacheCalls.SetCall` | pkg/cache/cache.go:107-138 | a Set run through stores the value with both expiries and changes nothing else |
| `CacheLayer.ClearOverMemory` | pkg/cache/cache.go:174-189 | over the in-memory store a Clear takes away a live key `*` and nothing else; no key answers afterwards if and only if no other key answered before |
| `ResponseCache.BodyCaptureWriter.Write` | pkg/middleware/cache.go:185-210 | all bytes reach the client; the capture is the stream or its first bytes up to the limit, and is the whole stream unless truncated |
| `ResponseCache.ChunkAdded` | pkg/middleware/cache.go:185-210 | the stream grows by the chunk, and the capture is truncated if and only if some chunk overran the limit |
| `ResponseCache.ProcessAndStore` | pkg/middleware/cache.go:321-372 | the response is stored if and only if its status is listed, its capture is whole, Cache-Control allows it where respected, the lifetime is positive and the store does not fail; the lifetime is the function's, else the response's own where respected, else the default; the entry has the status, the whole body, the first value of each header, and the response's ETag or a hash of the body |
| `ResponseCache.ServeFromCache` | pkg/middleware/cache.go:249-293 | a matching non-empty ETag is answered with 304 and no body, any other hit with the stored status and, except for HEAD, the stored body; either way with the stored headers, the ETag, the age and the mark of a hit |
| `ResponseCache.ReplayedWholeIff` | pkg/middleware/cache.go:350-357 | apart from the three a hit sets itself, a header of the first response comes back whole if and only if it has exactly one value, and no other header is added |
| `ResponseCache.StoreThenHit` | pkg/middleware/cache.go:249-372 | a response stored and later hit, after any calls that neither store nor drop its key, gives the second client the status and body that the first client saw, or 304 for the ETag the first one was given, the age since it was stored, and each header whole if and only if it has one value; up to a second before its lifetime ends it is hit when no store call fails |

## Left out

- MemoryKV.MemoryKV.Keys: one serial call; the concurrent range of `sync.Map` is covered only by the interleaved load and lazy delete steps of `MemoryKVSteps`.
- Envelope.Unmarshal: accepts strings without escapes and integer, string and null members; escapes, nested values, fractions and the 64-bit range of the expiry are not modelled, so raw values that look like envelopes and use them are only treated as malformed.
- Restart.NoReloadIsLost: signal delivery, the exits of NewApp on bad tracing, metrics or storage, the shutdown timeout and the closing of storage are not modelled; a server told to shut down is taken to have let go of its port.
- CacheSteps.WriteIsLostIff: the lazy deletes inside the underlying store are those of `MemoryKVSteps` and are not repeated here; a Set reads the clock for its local expiry in one step and for the store's lifetime in the next.
- Restart.BuiltFromValidIff: an overwrite of the global is one step, so no configuration is read half-written; what a running app goes on reading of the global for each request is the configuration `Restart.VerdictIsTold` is about.
- ResponseCache.ProcessAndStore: storing runs in a goroutine of its own in the code and is one step here; `WriteString`, which gin forwards past the capture, and an inner writer that refuses bytes are not modelled.
- ResponseCache.ServeFromCache: printing the age is a parameter, key building and the parsing of `Cache-Control` are left out; the parsed lifetime and permission are inputs, and header names are taken as canonical.
- ShareService.ShareService.CreateShare: the password hash, whether a password was given and the share ID are inputs.
- ShareCalls.SerialRunsAreCoherent: a call run through in the step machine reads the clock once for all its steps; over several clock readings it is the class `ShareService` that is proved.
- ShareSteps.CacheNeverForges: in the interleaved machine a creation reads the clock once, for its time and for the lifetime of its entry.
- Rename.EqualPrefixesDestroy: says what the loop does if the store accepts copying an object onto itself; a store that refuses stops the loop at the first copy.
- Sync.FileIndex.SyncObjectsToDBByDate: the store does not change while its listing is read; the calendar date of an instant is a parameter.
- GroupcacheKV, NATSKV and RedisKV: their reads go through library or server caches whose code is not in the repository.
- SQL, GORM and the S3 client: the database is a map with a deletion mark per row that stores times exactly, the object store a map whose calls fail without effect; an edit of a marked row changes nothing.
- The JSON columns of share records, the JSON of cached values and the sonic codec are taken as exact.
- Hash functions are parameters, injective where a property needs it; times and durations are unbounded.
- CopyFiles, DeleteFiles and UpdateFilesMetadata: the same loop shape as MoveFiles with one call per item.
- ListShares, AccessShare, share downloads, uploads, presigned URLs, versions and search: thin wrappers over the database and the object store.
- Nil clients and a missing default bucket: error returns before any state is touched.
- Rate limiter, circuit breaker, logging, metrics, tracing, routing and the command line.
