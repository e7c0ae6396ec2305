# Verified models of open-lmake's core algorithms

This project models, in Dafny 4.11, the parts of open-lmake whose correctness is hardest to see by
reading them, and proves what they promise for every input, every run and every reachable state.

- **The shared directory cache.** Entries are kept in a doubly linked ring of record files with a
  sentinel head, which also accounts for the space reserved by uploads that are not committed yet.
  `LruRing` holds the records and what each relinking does to the sequence they stand for, `LruCheck`
  the walk the authors use as their debug check, `CacheMatch` the search for an entry that fits a
  job, `CacheRuns` the cache as a plain sequence with its requests as atomic steps, `CacheOrphans` and
  `CacheRecency` what runs of requests leave behind and what they evict, `DirCache` (module
  `DirCaches`) the imperative operations proved against these steps, `CacheSession` whole sessions,
  `MsgFile` is the format of info files, and `CacheInfo` what a commit finds in them from the writes
  that made them. `RepairNames`, `RepairWalk`, `RepairDirs` and `RepairClean` say what a repair leaves
  of a directory tree, `CacheRepair` how it rebuilds the ring, and `CacheRestart` how the cache is used
  afterwards.
- **Checksums.** `Xxh3`, `Xxh3Stream` and `Xxh` show that hashing in pieces gives the one-shot hash,
  whatever the accumulate, scramble, round and final mixing functions are; `FileChecksum` applies it
  to the loop that reads a file; `Mult128` is the portable 64 by 64 bit product; `Checksum` says which
  accesses can tell two checksums apart.
- **Alignment of comments.** `AlignCost` and `AlignComments`: the columns written back by the dynamic
  program are optimal among all feasible ones.
- **Path names.** `CanonPath` and `CanonMeaning` (canonical form), `LocalPath` (relative to a directory
  and back), `FileMarker` (file names embedded in text).
- **Port probing** (`PortProbe`) and **stems of job names** (`StaticStems`).

`Basics`, `Bytes` and `Slashes` hold what several modules share.

`dafny verify dfyconfig.toml` checks the whole project.

## How the source is read

- Each request to the cache runs under one lock in the source, so it is one atomic step here. Files
  are maps from names to contents. Clocks, sizes of files, the order in which a directory is listed,
  the keys drawn at random, the results of `bind` and `read`, and the faults of a commit are parameters.
- An exception of the source is an outcome here (`None`, `Stopped`, `Faulted`, `Clash`, ...), and so
  are the assertions on arguments that callers control (`MkLcl`). The assertion on the form of a hint is
  a precondition of `CacheMatch.SubMatch`, which the cache is proved to meet: what its links hold always
  has the form of an entry key (`Hinted`). That deps have distinct names is a condition on callers.
- The uploader writes its reservation itself, after the request that granted it: an upload and the write
  of its reservation are two events, with anything between them.
- A commit may fail while it writes its info, with nothing left of it, a part of it or all of it, or when
  it moves its data. The results of the writes are given, and `CacheInfo.FaultOf` derives from them which
  deps can then be read. Whether a hit differs from what was uploaded is given too: the upload is then
  dropped and no link is set.
- 64-bit sums of sizes wrap explicitly. The comparison that looks for room is right for all sizes
  exactly when twice the maximum size fits in 64 bits (`RoomGuardIff`); the cache is modelled for such
  maximum sizes.

## What was found not to hold

These are stated with their exact conditions.

- Bytes of the account are lost over a run if and only if some upload writes its reservation over one
  that still holds bytes, or a commit erases an entry in a cache whose other reservations exceed the
  maximum, which only happens above the maximum, after it was lowered (`RunLosesNothingIff`,
  `SameKeyTwice`, `FittingNeverStrands`). An upload dismissed before it has written its reservation is not given back
  (`EarlyDismiss`). The total stays within the maximum, or does not grow when it started above it.
- A commit that fails once it has erased the directory does not erase it again. A failed rename, and a
  failed write of the info that has created the file, thus leave readable deps behind without a listed
  entry, and nothing else does (`OrphansComeFromFaults`). Such an entry answers matches, is never
  served, makes commits that match it drop their upload (`OrphanBlocks`), is out of reach of eviction
  and stays until a commit writes its entry (`OrphanStaysIff`, `OrphanLasts`).
- When the info was cut before the end of its deps, as on a full disk, it reads as an entry without deps
  (`CutInfo`). It answers every query of the job (`FullDisk`), and over every run the job never gets
  another entry (`JobIsFrozen`).
- Sending a message starts it again after each short write, so that a message that has been sent is in
  the file as it is if and only if one write was enough (`IntactIff`). The deps read back if and only if
  the first write went beyond them, or what is sent again happens to be what was missing
  (`ReadsBackIff`). Otherwise a commit may succeed and list an entry with other deps (`GarbledEntry`).
- A repair erases all reservations and counts entries only, but an upload may still be about to write
  its reservation. The account of the repaired cache is exact if and only if there is no such upload
  with bytes (`RepairAndOpen`). When such an upload commits, an assertion on the account fails if the
  other entries are smaller, and otherwise the head accounts for that much less than the entries
  (`LateCommit`, `RepairUnderUpload`).
- A repair does not create a missing head record: it succeeds if and only if there is one or nothing
  qualifies (`RepairWithoutHead`). It leaves alone a head that cannot be read when nothing qualifies
  (`GarbledHeadStays`). A repaired cache can thus be used if and only if it has a head, and this could be
  read or something qualifies, or it has no head and nothing qualifies (`RepairAndOpen`).
- `mk_canon` keeps the meaning of every path except an absolute one that reduces to the root without
  ending with a slash: the result is then empty (`CanonKeepsMeaning`, `RootIsLost`). `is_canon` with
  `dot_ok` accepts paths that `mk_canon` changes (`DotOkIsLaxer`).
- `mk_glb` does not undo `mk_lcl` on all paths (`UpDoesNotComeBack`); `RoundTripIff` gives the exact
  condition, and all canonical paths meet it.
- The length of an embedded file name is read back if and only if it is below 65536 (`LenRoundTrip`).
- In `_sub_match`, the case where the map of repo deps is not built and the assertion on the in-order
  flag are dead: `ScanDeps` shows that a partial match always leaves the in-order path.

## Model

| member | source | states |
|---|---|---|
| `LruRing.UnlinkRemoves` | museum/dir_cache.cc:376-402 | relinking the neighbours of a listed record removes exactly that element of the sequence, including from a ring of one, and leaves the total alone |
| `LruRing.LinkPrepends` | museum/dir_cache.cc:404-423 | linking an unlisted entry behind the head prepends exactly that element, in an empty ring too |
| `LruRing.TruncateDrops` | museum/dir_cache.cc:358-372 | erasing the evicted records and closing the ring leaves exactly a prefix of the sequence, newest entries first |
| `LruRing.KeptUnique` | museum/dir_cache.cc:338-354 | the number of entries kept is the only one that fits in the room and could not be one more |
| `LruCheck.Chk` | museum/dir_cache.cc:73-91 | the debug walk passes if and only if the records form a ring of distinct entries with exact back links whose sizes add up to the head less `delta`; it ends on any records, cyclic ones included |
| `LruCheck.WalkFollowsRing` | museum/dir_cache.cc:79-88 | whatever ring the records form, the walk from the head visits its elements in order |
| `LruCheck.WalkMayContinue` | museum/dir_cache.cc:79-88 | no test of the walk fails as long as the records form a ring |
| `LruCheck.RingUnique` | museum/dir_cache.cc:73-91 | the records determine the sequence they represent |
| `Checksum.DiffIsExact` | src/hash.cc:215-236 | for precise checksums of collision-free files, an access is reported if and only if it sees a difference between the two files |
| `Checksum.MatchHidesDifferences` | src/hash.hh:162-182 | accesses for which two checksums match cannot tell the files apart, whatever is known of the files |
| `CacheMatch.ScanDeps` | museum/dir_cache.cc:485-508 | the in-order comparison that falls back to a search by name gives the outcome of the search by name alone: hit iff all deps are there and match, partial iff no dep mismatches and one is missing |
| `CacheMatch.TruncateDeps` | museum/dir_cache.cc:517-525 | what follows the first critical dep that is missing from the repo is dropped, and the first missing dep stays |
| `CacheMatch.Merge` | museum/dir_cache.cc:526-536 | the accumulated deps are the intersection by name of the truncated deps of all compatible candidates met so far |
| `CacheMatch.Conclude` | museum/dir_cache.cc:539-555 | without a hit, the answer is the intersection when it brings a new name, otherwise the right kind of miss |
| `CacheMatch.SubMatch` | museum/dir_cache.cc:440-556 | hit iff some candidate has all its deps present and matching; a partial answer is the intersection over all compatible candidates and holds a name absent from the repo deps; for any listing order and any hint |
| `CacheMatch.AnswersAgree` | museum/dir_cache.cc:453-512 | two queries over the same entries agree on everything but which hit is taken, whatever the order and the hint |
| `CacheMatch.HitSeesTheSame` | museum/dir_cache.cc:485-512 | after a hit, every recorded access of the job sees in the repo what it saw when it was cached |
| `CacheMatch.PartialAnswersAreNames` | museum/dir_cache.cc:539-549 | a partial answer names deps of entries and at least one that the repo does not have |
| `CacheMatch.PartialAnswerProgresses` | museum/dir_cache.cc:539-549 | adding the deps of a partial answer leaves strictly fewer names to discover |
| `CacheMatch.DialogueIsBounded` | museum/dir_cache.cc:539-549 | a dialogue of partial answers is no longer than the number of names the repo does not have: queries cannot loop |
| `CacheRuns.Overwrite` | museum/dir_cache.cc:577-593 | writing a reservation replaces the bytes that were outstanding under its key |
| `CacheRuns.StepBounds` | museum/dir_cache.cc:323-374 | a request leaves the total alone or below, unless it makes room, and then the cache fits in the maximum, even from a total above it |
| `CacheRuns.StepKeepsInv` | museum/dir_cache.cc:558-658 | every request keeps entries distinct and non-empty, and entries plus reservations within the maximum |
| `CacheRuns.CommitFacts` | museum/dir_cache.cc:595-651 | in all its outcomes a commit changes no entry but its target and those it evicts, and fits, or when the other reservations exceed the maximum strands exactly the bytes of its target |
| `CacheRuns.DownloadFacts` | museum/dir_cache.cc:558-575 | a download keeps the account and the set of listed entries |
| `CacheRuns.DismissedFacts` | museum/dir_cache.cc:425-428 | a dismissal in a cache that fits gives back exactly its reservation; above the maximum it evicts until the cache fits, or changes nothing |
| `CacheRuns.DismissalOutcome` | museum/dir_cache.cc:425-428 | a dismissal fails iff the other reservations exceed the maximum, and evicts something iff they fit and the entries do not fit with them |
| `CacheRuns.DoneIffStored` | museum/dir_cache.cc:610-647 | a commit that writes reports success iff its entry is listed afterwards, and it is then the newest one with the deps its info reads as |
| `CacheRuns.RunKeepsInv` | museum/dir_cache.cc:558-658 | over every run the total is within the maximum, or no more than at the start; the invariant holds over every run, with no assumption on keys |
| `CacheRuns.StepKeepsExact` | museum/dir_cache.cc:558-658 | every request keeps what is accounted besides entries equal to what is granted, reserved or lost |
| `CacheRuns.RunKeepsExact` | museum/dir_cache.cc:558-658 | so does every run |
| `CacheRuns.StepLoses` | museum/dir_cache.cc:577-651 | a request loses bytes iff it writes a reservation over one that holds bytes or strands an entry |
| `CacheRuns.FittingNeverStrands` | museum/dir_cache.cc:625-646 | a cache within its maximum never strands an entry |
| `CacheRuns.RunLosesNothingIff` | museum/dir_cache.cc:577-651 | over every run, bytes are lost iff one of its events loses some |
| `CacheRuns.SameKeyTwice` | museum/dir_cache.cc:577-593 | two uploads with the same key lose exactly the bytes of the first one |
| `CacheRuns.EarlyDismiss` | museum/dir_cache.cc:577-593 | an upload dismissed before its reservation is written is an error, and its bytes stay in the account |
| `CacheOrphans.OrphansAfter` | museum/dir_cache.cc:558-658 | a request changes which unlisted entries have readable deps only at the target of a commit that writes |
| `CacheOrphans.OrphansComeFromFaults` | museum/dir_cache.cc:628-646 | from a cache where all readable deps belong to listed entries, a step breaks this iff it is a commit that has room and fails with an info file left behind |
| `CacheOrphans.FaultScenario` | museum/dir_cache.cc:633-646 | such an entry is reached from the empty cache by one upload, the write of its reservation and one commit, for every fault that leaves an info |
| `CacheOrphans.OrphanBlocks` | museum/dir_cache.cc:558-612 | every answer of the match where an unlisted entry is the one that fits is that entry, so that a download is not served and a commit drops its upload |
| `CacheOrphans.DiskFullScenario` | museum/dir_cache.cc:633-646 | after a commit cut before the end of its deps, every query of the job with any repo deps hits the entry that is not listed |
| `CacheOrphans.OrphanStaysIff` | museum/dir_cache.cc:558-658 | an unlisted entry keeps its deps through a request iff the request is not a commit that writes it, or one that fails leaving the same deps |
| `CacheOrphans.OrphanLasts` | museum/dir_cache.cc:323-374 | over every run without such a commit it stays: eviction never reaches it |
| `CacheOrphans.JobIsFrozen` | museum/dir_cache.cc:558-658 | once an unlisted entry reads as having no deps, its job gets no other entry, over every run in which the match answers as it does |
| `CacheRecency.StepKeepsRecency` | museum/dir_cache.cc:404-423 | with a clock that does not go backward, a request keeps the ring in order of last access |
| `CacheRecency.RunKeepsRecency` | museum/dir_cache.cc:323-423 | over every run, whatever the room asked for, each entry that eviction drops was accessed no later than each one it keeps |
| `DirCaches.RoomGuardIff` | museum/dir_cache.cc:338 | with 64-bit sums, the comparison that looks for room is the real one for all sizes iff twice the maximum fits in 64 bits |
| `DirCaches.DirCache.constructor` | museum/dir_cache.hh:25-33 | the empty cache is valid |
| `DirCaches.DirCache.Reopen` | museum/dir_cache.cc:304-317 | a ring with its total in the head, and links of the right form, is a valid cache that accounts for its entries only |
| `DirCaches.DirCache.LruRemove` | museum/dir_cache.cc:376-402 | takes one entry out of the ring in place and returns its size, 0 iff there is no such record |
| `DirCaches.DirCache.LruMkNewest` | museum/dir_cache.cc:404-423 | puts one entry in front of the ring in place |
| `DirCaches.PlanRoom` | museum/dir_cache.cc:323-356 | whatever the head accounts for, the loop ends; refuses, stops on an assertion, or selects the shortest oldest-first run of entries that is enough, each under its exact condition |
| `DirCaches.CoveredNeverBreaks` | museum/dir_cache.cc:336-352 | no assertion fails when the head accounts for the entries and for what is replaced; room is then refused iff the new size plus what cannot be evicted exceeds the maximum |
| `DirCaches.BreaksAt` | museum/dir_cache.cc:350 | once eviction reaches an entry that is more than what is left in the account, the assertion on it fails |
| `DirCaches.DirCache.MakeRoom` | museum/dir_cache.cc:323-374 | the same in place: unless room is made nothing changes |
| `DirCaches.DirCache.EraseOldest` | museum/dir_cache.cc:358-372 | erases these entries and closes the ring |
| `DirCaches.DirCache.MkRoom` | museum/dir_cache.cc:323-374 | replaces the old size by the new one with the shortest oldest-first eviction; refuses exactly when no eviction is enough, and then changes nothing |
| `DirCaches.DirCache.DismissReservation` | museum/dir_cache.cc:425-428 | gives back the bytes and the reservation with the eviction that makes the cache fit; fails iff no eviction is enough, and then changes nothing |
| `DirCaches.DirCache.DropUpload` | museum/dir_cache.cc:425-428 | a reservation is given back whole, or kept iff the other ones exceed the maximum |
| `DirCaches.DirCache.SubUpload` | museum/dir_cache.cc:577-593 | refused iff what is accounted besides entries plus the new size exceeds the maximum; otherwise the size is granted, with the shortest eviction |
| `DirCaches.DirCache.WriteReservation` | museum/dir_cache.cc:583-588 | the uploader writes the reservation it was granted, and the bytes of one that was there under the same key are lost |
| `DirCaches.DirCache.SubDismiss` | museum/dir_cache.cc:653-658 | gives back exactly the reservation, or fails iff the other ones exceed the maximum; an unknown key is an error that changes nothing |
| `DirCaches.DirCache.SubDownload` | museum/dir_cache.cc:558-575 | answers as the match does, makes the entry of a hit the newest one, and changes nothing otherwise |
| `DirCaches.DirCache.Serve` | museum/dir_cache.cc:567-575 | a hit on an entry that is not listed is an error that changes nothing |
| `DirCaches.DirCache.Touch` | museum/dir_cache.cc:569-570 | makes an entry the newest one iff it is listed |
| `DirCaches.DirCache.SubCommit` | museum/dir_cache.cc:595-651 | the whole commit is one step of the reference, its answer is one of the match, it reports the outcome of that step, and a link leads to the entry iff it is done, which a hit that differs from the upload is not |
| `DirCaches.StaysHinted` | museum/dir_cache.cc:457-460 | the key a link leads to has the form the match expects of a hint |
| `DirCaches.DirCache.CommitAndLink` | museum/dir_cache.cc:601-649 | the same for a reservation that is there |
| `DirCaches.DirCache.MatchAndSettle` | museum/dir_cache.cc:607-647 | the same without the link |
| `DirCaches.DirCache.Settle` | museum/dir_cache.cc:607-647 | a hit drops the upload; otherwise the entry is written |
| `DirCaches.DirCache.Place` | museum/dir_cache.cc:613-614 | the first entry of the repo key is written, or the last one when a first exists |
| `DirCaches.DirCache.Populate` | museum/dir_cache.cc:625-646 | refused iff the other reservations and the entry do not fit; on any failure what was accounted is given back, if the other reservations fit |
| `DirCaches.DirCache.Refuse` | museum/dir_cache.cc:640-646 | a commit without room is the refused step of the reference |
| `DirCaches.DirCache.GiveUp` | museum/dir_cache.cc:640-646 | gives back the reservation and the bytes of the erased entry, or leaves both in the account iff the other reservations exceed the maximum |
| `DirCaches.DirCache.ReplaceEntry` | museum/dir_cache.cc:630-632 | the old entry and the reservation make place for the new size, with the shortest eviction |
| `DirCaches.DirCache.EraseEntry` | museum/dir_cache.cc:630-631 | the entry leaves the ring and its deps are no longer readable |
| `DirCaches.DirCache.Finish` | museum/dir_cache.cc:633-646 | writes the entry, or cleans up after a fault; what was written of the info stays behind |
| `DirCaches.DirCache.Publish` | museum/dir_cache.cc:633-638 | lists the entry as the newest one, with its deps, in exchange for the reservation |
| `DirCaches.DirCache.Abandon` | museum/dir_cache.cc:640-646 | gives back the bytes held by a commit that fails |
| `CacheSession.Step` | museum/dir_cache.cc:558-658 | each request of a session is a step of the reference, with an answer of the match and the fault that the writes of the info give |
| `CacheSession.StepCommit` | museum/dir_cache.cc:595-651 | a commit, with the fault that the writes of its info give |
| `CacheSession.Session` | museum/dir_cache.cc:558-658 | after any session the head is the sum of the listed entries and of all that is granted, reserved or lost, within the maximum or no more than before; nothing is lost iff no event of the run loses bytes |
| `CacheSession.CheckPasses` | museum/dir_cache.cc:73-91 | on a valid cache the debug check passes for one difference only, what is accounted besides entries |
| `MsgFile.IMsgBuf.Receive` | src/msg.hh:36-110 | however the file is read, the next message is received, or the end of the file if it is not whole |
| `MsgFile.IMsgBuf.ReceiveStep` | src/msg.hh:52-110 | one step gives the message, the end of the file, or has read more |
| `MsgFile.IMsgBuf.ReceiveLen` | src/msg.hh:84-95 | the length is decoded once it is there |
| `MsgFile.IMsgBuf.ReceiveData` | src/msg.hh:96-109 | the message is taken once it is there |
| `MsgFile.IMsgBuf.Advance` | src/msg.hh:58-83 | at most one read; the end of the file is only met when what is wanted is not there |
| `MsgFile.IMsgBuf.Consume` | src/msg.hh:102-108 | the message is skipped, and what follows it stays available when the buffer is moved down |
| `MsgFile.CutAnywhere` | src/msg.hh:52-110 | of a file cut anywhere, the first message is received iff the cut comes after it |
| `MsgFile.SecondMessage` | src/msg.hh:52-110 | the message that follows is received at its place |
| `MsgFile.Send` | src/msg.hh:129-147 | the loop writes the message again from its start after each short write |
| `MsgFile.IntactIff` | src/msg.hh:129-147 | a message that has been sent is in the file as it is iff one write was enough |
| `MsgFile.FailureCuts` | src/msg.hh:134-147 | writes that fail after some bytes, none included, leave the beginning of the message |
| `MsgFile.ReceivedIff` | src/msg.hh:52-110 | a message is received iff the file starts with it |
| `MsgFile.ReadsBackIff` | src/msg.hh:36-147 | what was sent reads back as its first message iff the first write went beyond it, or the next ones happen to bring what was missing |
| `MsgFile.SecondWriteGarbles` | src/msg.hh:129-147 | a first write of the length only and a second one of everything: as many other bytes are received |
| `CacheInfo.WriteInfo` | museum/dir_cache.cc:616-618 | the writes of the info and the move of the data give the fault of the commit, and the deps its file reads as |
| `CacheInfo.OneWriteStores` | museum/dir_cache.cc:635-636 | an info written at once and moved reads as the deps of the commit |
| `CacheInfo.CutInfo` | museum/dir_cache.cc:477-478 | an info whose write fails after some bytes, none included, reads as no deps if the cut comes before the end of the deps, and as all of them after that |
| `CacheInfo.GarbledEntry` | museum/dir_cache.cc:635-638 | an info sent in two writes: the commit is done, and its entry is listed with other bytes in place of its deps |
| `CacheInfo.FullDisk` | museum/dir_cache.cc:635-646 | from the empty cache, a commit whose info is cut before the end of its deps makes every query of the job hit an entry that is not listed |
| `CacheRepair.Repair` | museum/dir_cache.cc:195-321 | whatever the records held, the ring is exactly the qualified entries in decreasing order of access, with the total in the head; it fails iff the head is missing and something qualifies; a dry run changes no record |
| `CacheRepair.SortNewestFirst` | museum/dir_cache.cc:281-297 | the qualified entries, each once, newest first |
| `CacheRepair.RebuildRecords` | museum/dir_cache.cc:298-312 | each record ends up with its place in the ring, whether it had to be written or not |
| `CacheRepair.RebuiltIsLinked` | museum/dir_cache.cc:298-317 | records at their places and a head with the total satisfy the invariant of the ring |
| `RepairNames.EntryFileIff` | museum/dir_cache.cc:196 | the files recognised as those of entries are those of the form of the regular expression |
| `RepairNames.CacheNamesValid` | museum/dir_cache.cc:196-249 | administrative files are none of entries, and keys are names of directories |
| `RepairNames.ReservationsGo` | museum/dir_cache.cc:226-249 | the file of a reservation has none of the names that are kept |
| `RepairWalk.SortFiles` | museum/dir_cache.cc:216-250 | after the walk, entries with their files, links with their entries, files to remove and directories are exactly those of the tree |
| `RepairWalk.SortFile` | museum/dir_cache.cc:219-249 | one file more |
| `RepairWalk.QualifiesIff` | museum/dir_cache.cc:155 | an entry qualifies only with all its files |
| `RepairWalk.ChooseEntries` | museum/dir_cache.cc:252-259 | entries that qualify are kept with the directories above them, the files of the others are to be removed |
| `RepairWalk.ChooseLinks` | museum/dir_cache.cc:261-265 | links that lead to entries that are kept stay, and keep no other directory |
| `RepairClean.CleanUp` | museum/dir_cache.cc:216-279 | what is left is exactly: the administrative files, the files of the entries that qualify, the links that lead to them, and the directories above all these |
| `RepairClean.SortDown` | museum/dir_cache.cc:275 | decreasing order of names |
| `RepairClean.EmptyByThen` | museum/dir_cache.cc:275-279 | a directory to remove is empty when its turn comes, so that its removal succeeds |
| `RepairClean.RemoveDirs` | museum/dir_cache.cc:276-279 | all directories to remove are removed |
| `RepairClean.NothingInside` | museum/dir_cache.cc:252-279 | no file that stays lies in a directory to remove |
| `CacheRestart.ReadLeft` | museum/dir_cache.cc:195-321 | no reservation is left, and no info or link but of entries that qualify |
| `CacheRestart.CacheNamesFit` | museum/dir_cache.cc:195-249 | this holds of the names of the cache |
| `CacheRestart.RepairAndOpen` | museum/dir_cache.cc:195-321 | fails iff the head is missing and something qualifies; usable iff there is a head and it could be read or something qualifies, or there is no head and nothing qualifies; then valid, exactly the entries that qualify, newest first, no unlisted info, no reservation, links to listed entries; the account is exact iff no grant with bytes is left, within the maximum iff the entries are |
| `CacheRestart.RepairAndServe` | museum/dir_cache.cc:195-321 | after a repair with no upload under way, every session is accounted for |
| `CacheRestart.LateCommit` | museum/dir_cache.cc:336-352 | an upload granted before a repair that commits after it: the assertion on the total fails iff the entries are smaller or eviction meets one larger than what is left, and otherwise the head accounts for that much less than the entries |
| `CacheRestart.RepairUnderUpload` | museum/dir_cache.cc:195-374 | the whole story: alone, such an upload breaks the account |
| `CacheRestart.RepairWithoutHead` | museum/dir_cache.cc:304-317 | one qualified entry without head record: the repair fails |
| `CacheRestart.GarbledHeadStays` | museum/dir_cache.cc:305-317 | a head that cannot be read in an empty cache stays as it is |
| `RepairDirs.StartDirs` | museum/dir_cache.cc:200 | the directories a repair starts from are closed under parents |
| `RepairDirs.MeetDir` | museum/dir_cache.cc:221 | a directory that is met is not kept for that, and a kept one stays so |
| `RepairDirs.Uphill` | museum/dir_cache.cc:205-214 | marks exactly the directory and its ancestors although it stops at the first one already kept, and keeps the set closed under parents |
| `RepairDirs.RemovalOrder` | museum/dir_cache.cc:273-279 | a directory is removed before the one that holds it, and nothing kept lies in a removed one |
| `Xxh3.Accumulate` | ext/xxhash.h:4894-4910 | the loop mixes stripe after stripe with its place in the secret |
| `Xxh3.RawIsFeed` | ext/xxhash.h:4894-4910 | stripes within a block are those of the reference, which scrambles as soon as a block is complete |
| `Xxh3.Advance` | ext/xxhash.h:6412-6446 | accumulating part of a block from any position advances the reference by as many stripes |
| `Xxh3.FeedSplit` | ext/xxhash.h:6412-6446 | feeding can be cut at any stripe |
| `Xxh3.FeedPrefix` | ext/xxhash.h:6412-6446 | feeding stripes does not depend on the bytes after them |
| `Xxh3.ConsumeBlocks` | ext/xxhash.h:6421-6437 | completes the current block, then goes on as long as whole blocks remain |
| `Xxh3.ConsumeRest` | ext/xxhash.h:6438-6443 | the stripes after the last complete block |
| `Xxh3.ConsumeStripes` | ext/xxhash.h:6412-6446 | consuming any number of stripes from any position of a block is feeding them one by one, across any number of block boundaries |
| `Xxh3.Layout` | ext/xxhash.h:5994-6009 | blocks and remaining stripes add up to all stripes but the last bytes |
| `Xxh3.HashBlocks` | ext/xxhash.h:6002-6005 | whole blocks are fed one by one |
| `Xxh3.HashLong` | ext/xxhash.h:5987-6018 | the one-shot loop over blocks computes the reference hash |
| `Xxh3Stream.AppendSmall` | ext/xxhash.h:6483-6488 | bytes that fit in the buffer are only appended |
| `Xxh3Stream.ConsumeBuffer` | ext/xxhash.h:6498-6508 | a completed buffer is consumed, and its end keeps the last stripe |
| `Xxh3Stream.ConsumeBulk` | ext/xxhash.h:6510-6519 | stripes taken from the input leave a copy of the last one at the end of the buffer |
| `Xxh3Stream.BufferTail` | ext/xxhash.h:6520-6525 | the bytes that remain are buffered without destroying the last stripe while it is needed |
| `Xxh3Stream.LastStripeIsLast` | ext/xxhash.h:6555-6578 | the last stripe is recovered across the end of the buffer when few bytes are buffered |
| `Xxh3Stream.DigestIs` | ext/xxhash.h:6544-6579 | what a long digest has to compute from the state |
| `Xxh3Stream.AllIsBuffered` | ext/xxhash.h:6589-6594 | a short input has never left the buffer |
| `Xxh3Stream.State.Reset` | ext/xxhash.h:6324-6349 | the initial state stands for no byte |
| `Xxh3Stream.State.Update` | ext/xxhash.h:6456-6533 | however the input is cut, the state stands for all the bytes fed so far |
| `Xxh3Stream.State.UpdateLong` | ext/xxhash.h:6490-6530 | the case where the input does not fit in the buffer |
| `Xxh3Stream.State.FlushBuffer` | ext/xxhash.h:6498-6508 | completes and consumes a buffer that is not empty |
| `Xxh3Stream.State.ConsumeLong` | ext/xxhash.h:6510-6519 | consumes stripes from the input and keeps between 1 and 64 bytes |
| `Xxh3Stream.State.Digest` | ext/xxhash.h:6582-6595 | the digest is the one-shot hash of all bytes fed, and does not change the state |
| `Xxh3Stream.State.DigestLong` | ext/xxhash.h:6544-6579 | the long digest works on a copy of the accumulators |
| `Xxh3Stream.HashChunks` | ext/xxhash.h:6456-6595 | for every way of cutting the input into updates, the digest is the one-shot hash, for arbitrary accumulate and scramble functions |
| `Xxh.ConsumeLong` | ext/xxhash.h:3017-3038 | all complete stripes are consumed and what is left is the tail |
| `Xxh.Hash` | ext/xxhash.h:3157-3177 | the one-shot form computes the reference hash |
| `Xxh.RoundsAppend` | ext/xxhash.h:3249-3271 | consuming more data after the tail is consuming all the data |
| `Xxh.TailLength` | ext/xxhash.h:3249-3271 | the tail has the length modulo the stripe length |
| `Xxh.StandsSize` | ext/xxhash.h:3727-3769 | the buffered size is the total length modulo the stripe length |
| `Xxh.LengthUpdate` | ext/xxhash.h:3239-3240 | the recorded length is the real one modulo 2^32 or 2^64, and the flag is set iff the real length reaches a stripe although the recorded one wraps |
| `Xxh.State.Reset` | ext/xxhash.h:3220-3227 | the initial state stands for no byte |
| `Xxh.State.Update` | ext/xxhash.h:3231-3275 | however the input is cut, the state stands for all the bytes fed so far |
| `Xxh.State.Count` | ext/xxhash.h:3239-3240 | the flag and the wrapped length follow the real length |
| `Xxh.State.Take` | ext/xxhash.h:3242-3271 | lanes and buffer stand for the bytes fed so far |
| `Xxh.State.TakeLong` | ext/xxhash.h:3249-3271 | consumes all complete stripes of the buffered bytes and the input |
| `Xxh.State.CompleteBuffer` | ext/xxhash.h:3252-3258 | completes and consumes a buffer that is not empty |
| `Xxh.State.Digest32` | ext/xxhash.h:3278-3291 | the digest is the one-shot hash even when the recorded length has wrapped |
| `Xxh.State.Digest64` | ext/xxhash.h:3773-3786 | the digest is the one-shot hash |
| `Xxh.HashChunks` | ext/xxhash.h:3727-3786 | for every way of cutting the input, XXH32 and XXH64 streaming equal their one-shot forms, for any round, merge and final mix |
| `FileChecksum.StableFile` | src/hash.cc:103-120 | a file that does not change while it is read is collected as a whole, in any pieces and with any interruptions |
| `FileChecksum.HashFile` | src/hash.cc:92-128 | the reading loop gives the one-shot hash of the bytes collected, or the error |
| `Mult128.Mult64to128` | ext/xxhash.h:4537-4551 | high * 2^64 + low is the exact product for all 64-bit operands, with no intermediate sum beyond 64 bits |
| `AlignCost.LessShift` | src/align_comments.cc:74-79 | the lexicographic order of costs is compatible with addition |
| `AlignCost.LeqTransitive` | src/align_comments.cc:74-79 | the order is transitive |
| `AlignCost.BreakCosts` | src/align_comments.cc:122 | a break always costs |
| `AlignComments.RowIsLowerBound` | src/align_comments.cc:108-135 | each cell of the table is at most the cost of any feasible alignment that ends in its column |
| `AlignComments.RowIsAchieved` | src/align_comments.cc:108-135 | each cell is the cost of the alignment found by going back from it |
| `AlignComments.PathIsOptimal` | src/align_comments.cc:136-147 | going back from the best column of the last row gives an optimal alignment when every comment fits |
| `AlignComments.LastRowOk` | src/align_comments.cc:137-141 | the last row has a valid column iff every comment fits, so the assertion holds exactly then |
| `AlignComments.PathLinks` | src/align_comments.cc:142-147 | following the stored columns line by line is following the path |
| `AlignComments.PathFollows` | src/align_comments.cc:142-147 | the table leads from each column of the path to the one of the comment before |
| `AlignComments.BestWithBreak` | src/align_comments.cc:118-122 | the first cheapest column of the previous row, with a break charged to it at its level |
| `AlignComments.Cell` | src/align_comments.cc:124-134 | one cell: stay in the column or come from the cheapest one, then charge closeness and position |
| `AlignComments.FillRow` | src/align_comments.cc:117-134 | fills one row in place and leaves the others alone |
| `AlignComments.FillTable` | src/align_comments.cc:101-135 | fills the table, with the break level followed over blank, code and comment lines |
| `AlignComments.Cheapest` | src/align_comments.cc:137-140 | the first cheapest column |
| `AlignComments.WriteBack` | src/align_comments.cc:142-147 | writes each comment the column of the path and changes nothing else |
| `AlignComments.Optimize` | src/align_comments.cc:100-148 | succeeds iff every comment fits; the columns written then cost no more than any other feasible assignment; nothing but columns changes, and nothing at all on failure |
| `CanonPath.MkCanon` | src/disk.cc:52-92 | the pushing and truncating loop computes the canonical form; nul characters raise an error |
| `CanonPath.IsCanon` | src/disk.cc:21-49 | the checker decides acceptance for each action; on a path with a nul character it raises an error iff all slashes before it are fine, and rejects otherwise |
| `CanonPath.SlashOkIff` | src/disk.cc:21-92 | at each slash, the checker is satisfied iff the canonicaliser has nothing to remove |
| `CanonPath.AcceptedIffFixed` | src/disk.cc:21-92 | a path is accepted with the default action iff it is neither empty nor a dot and `mk_canon` returns it unchanged |
| `CanonPath.DotOkIsLaxer` | src/disk.cc:21-49 | with `dot_ok`, a path that is not canonical is accepted |
| `CanonMeaning.CanonIsRender` | src/disk.cc:52-92 | the canonical form is the printed lexical meaning of the path |
| `CanonMeaning.CanonKeepsMeaning` | src/disk.cc:52-92 | the meaning is kept iff the path is not an absolute one reducing to the root without a slash |
| `CanonMeaning.RootIsLost` | src/disk.cc:52-92 | above the root is the root, whose canonical form is empty |
| `CanonMeaning.CanonIsCanonical` | src/disk.cc:21-92 | the result is empty, a dot or accepted, and canonicalising again changes nothing |
| `CanonMeaning.CanonIsUnique` | src/disk.cc:52-92 | paths of the same meaning and kind have the same canonical form |
| `CanonMeaning.ReadBack` | src/disk.cc:52-92 | a meaning is read back from its printed form iff it is not the root without a slash |
| `LocalPath.MkLcl` | src/disk.cc:94-106 | the loop computes the path from the directory: up to the common directories, then down; the assertions on the arguments are the only failures |
| `LocalPath.WayUp` | src/disk.cc:102-103 | as many `..` as there are directories to leave |
| `LocalPath.CommonIsLongest` | src/disk.cc:94-106 | no longer run of directories starts both the path and the directory |
| `LocalPath.MkGlb` | src/disk.cc:108-120 | the loop removes one directory for each leading `..`, and stops on a directory that cannot be left |
| `LocalPath.UpsLeave` | src/disk.cc:108-120 | going up as many times as there are directories gives back the common part |
| `LocalPath.RoundTripIff` | src/disk.cc:94-120 | `mk_glb` undoes `mk_lcl` iff the path does not go on with `..` or an empty component where it leaves the directory |
| `LocalPath.UpDoesNotComeBack` | src/disk.cc:94-120 | `a/../b` seen from `a/` comes back as `b` |
| `LocalPath.RoundTrip` | src/disk.cc:94-120 | it does so for every canonical path and every canonical directory without `..` of the same absoluteness |
| `FileMarker.Localize` | src/disk.cc:145-165 | the decoding loop computes the reference decoding, and stops on malformed names |
| `FileMarker.TextStays` | src/disk.cc:145-165 | text without marker is passed through |
| `FileMarker.FileDecoded` | src/disk.cc:134-165 | a marked name is replaced by its rendered relative form, even if its display or length bytes equal the marker |
| `FileMarker.LocalizeUndoesEncoding` | src/disk.cc:134-165 | any interleaving of text and marked names is shown as the same text with each name in its relative form |
| `FileMarker.LenRoundTrip` | src/disk.cc:134-165 | a length is read back iff it is below 65536 |
| `FileMarker.RemarkIsText` | src/disk.cc:134-143 | a name with a remark on its existence is text and a marked name |
| `PortProbe.BitCeil` | src/fd.cc:185 | the smallest power of two that is not below the size |
| `PortProbe.MaskIsMod` | src/fd.cc:186-189 | masking with a power of two less one is taking the remainder |
| `PortProbe.OddInverse` | src/fd.cc:171-189 | an odd step has an inverse modulo every power of two |
| `PortProbe.OddStepReaches` | src/fd.cc:171-189 | so its multiples reach every residue within that many steps |
| `PortProbe.XorTwice` | src/fd.cc:189 | xoring with the random value undoes itself |
| `PortProbe.XorInBlock` | src/fd.cc:189 | values of the block of the random value differ from it only within the block |
| `PortProbe.InBlock` | src/fd.cc:189 | a block covers all residues modulo a smaller size |
| `PortProbe.EveryPortTried` | src/fd.cc:182-201 | for any random value and range, every port is tried at some step |
| `PortProbe.Probe` | src/fd.cc:170-203 | the loop makes at most twice as many trials as the range has ports, and gives up only after every port of the range has been tried in vain; otherwise it returns the port bound, or stops on another error; the hint is updated on success only |
| `StaticStems.ScanPrinted` | _lib/fmt_rule.py:208-238 | scanning the printed form of any tokens ends between tokens with exactly their keys |
| `StaticStems.Parsed` | _lib/fmt_rule.py:208-238 | whatever has been scanned is the printed form of tokens and the beginning of one |
| `StaticStems.ThreeWays` | _lib/fmt_rule.py:208-242 | every name is a printed form, holds a lone closing brace or ends inside a stem, and only one of these; the final state tells which |
| `StaticStems.StemsAreStatic` | _lib/fmt_rule.py:233-236 | the stems are the stripped keys that are not empty and do not end with a star |
| `StaticStems.FirstBadIsBad` | _lib/fmt_rule.py:233-236 | an identifier error is raised iff some stem is not an identifier |
| `StaticStems.FindStaticStems` | _lib/fmt_rule.py:203-242 | returns exactly the stems of a printed form; a lone closing brace, an unfinished stem and a key that is not an identifier are rejected, each with its own error and the first bad key first |

## Left out

- File I/O, locks, permissions, serialization and the temporary files of the cache: files are maps and a request is one step.
- I/O failures in the middle of relinking or erasing: the source has no recovery there; faults are modelled at room refusal, at the write of the info and at the rename.
- DirCaches.DirCache.constructor: maximum sizes of 2^63 bytes and more are not covered, where the sums of the source wrap.
- DirCaches.DirCache.Reopen: maximum sizes of 2^63 bytes and more are not covered, nor totals that wrap with the maximum.
- CacheRestart.RepairAndOpen: the same sizes are not covered.
- DirCaches.PlanRoom: totals whose sum with the maximum exceeds 64 bits are not covered.
- DirCaches.DirCache.MakeRoom: the same totals are not covered.
- DirCaches.DirCache.MkRoom: the same totals are not covered.
- CacheInfo.WriteInfo: an info whose first length reads as zero stops the program when it is matched; it is taken as one that cannot be decoded.
- CacheRestart.RepairAndServe: the same sizes as for RepairAndOpen are not covered.
- CacheRestart.RepairUnderUpload: the same sizes as for RepairAndOpen are not covered.
- The hash in the name of a link (`deps_hint`): any function of the deps may be used.
- Partial writes of a reservation: a reservation is there with its size or not at all.
- The tests that qualify an entry in a repair, besides the presence of its files: their result is given, with the size.
- The lock file, which a repair removes even in a dry run.
- CacheMatch.HitSeesTheSame: relies on checksums without collision among the files considered; accesses are those of `FullAccesses`.
- CacheMatch.SubMatch: two checksums so close that they look alike stop the program in the source; the answer is then `Clash`, which only tells that there is such a pair.
- The comparison of the targets of two jobs when a commit hits (`cache_repo_cmp`): its result is given.
- The 96-bit checksum, and the `hex` and `base64` forms of checksums.
- SIMD variants, alignment, endianness, seeds and secrets of XXH3 other than an arbitrary secret, and the values of the mixing functions.
- Xxh3Stream.State.Digest: inputs of 2^64 bytes and more, where the recorded length wraps.
- Xxh3Stream.HashChunks: inputs of 2^64 bytes and more, where the recorded length wraps.
- Xxh.HashChunks: inputs of 2^64 bytes and more of the 64-bit hash, where the recorded length wraps.
- Xxh.State.Digest64: inputs of 2^64 bytes and more, where the recorded length wraps.
- AlignComments.Optimize: a maximum width of zero, where the source indexes an empty row; how lines are split into code and comment.
- CanonPath.IsCanon: the actions that check only a part of a path are computed as in the source, but related to the canonical form only for whole paths.
- Shell, Python and printable quoting in `_localize`: any rendering function may be used.
- Sockets and dotted address notation; the case where addresses are not reused and no port is probed.
- What counts as white space and as an identifier in job names is left to the caller; the rest of rule formatting is not modelled.
