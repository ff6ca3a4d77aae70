# A verified model of FileHarbor

FileHarbor serves one managed directory over the web. This project models the parts of it whose
correctness depends on state, order and failure, and proves what they promise. Check all of it with
`dafny verify dfyconfig.toml`.

## What is modelled

**Resumable uploads** (`UploadParts`, `UploadRecord`, `UploadRecordSize`, `UploadProtocol`,
`UploadSafety`, `UploadStore`, `UploadOutcomes`, `UploadLives`, `UploadWorld`, `UploadDirectory`,
`UploadStartUp`, `UploadLocks`). One upload is a durable record, private part files
and a share of the managed tree (names to inodes to bytes). `UploadProtocol` is a state machine with
one action for each durable change and a guard for each action; `UploadSafety` proves what holds
over all of its runs. `UploadStore.Store` is the code: every method changes the disk only through
`Perform`, which appends an action to the ghost field `run` and may refuse it, apply it, or apply it
and still report an error, with other users of the tree acting in between. A crash is a run that
stops early, so a statement about every index of every run is a statement about every crash point.
With `reliable` set nothing fails and nobody interferes, and the methods then state their exact
result. The digests are arbitrary functions; nothing assumes that equal digests mean equal bytes.
Where recovery adopts a file the conclusion is therefore "same length and digest", and on the direct
path it is "the same bytes". `UploadWorld` runs any number of uploads over one tree and shows that each
of them lives through a run of its own protocol. `UploadDirectory` holds all uploads under `reapMu` with
the quota as its invariant, `UploadStartUp` recovers them all and then reaps, `UploadOutcomes` says
exactly when the store leaves something behind or blocks itself, `UploadLives` follows a stage name
through whole lives of an upload id, and `UploadLocks` interleaves any number of clients and reapers
over `reapMu` and the 64 stripes.

**Tree operations** (`Paths`, `FileTree`, `BatchOperations`, `BatchCopying`, `ItemOperations`,
`Archives`). The managed tree is a map from paths to nodes with rename, mkdir, create and remove
that may fail (`faults`). `undo` says that the clean-up removals and reverse renames of a failed
operation succeed; without it the statements that do not need it still hold.

**Smaller machines.** `LoginLimiter` is the login limiter whose password check runs outside the
lock, `AuditLogs` the append, rotation and repair of the audit log, `WebAssets` the acceptance of the
web manifest and the cyclic walk over its imports.

## What the proofs found

- Recovery accepts a crash in `finalizing` exactly when the directory still resolves and the declared
  digest is absent or right (`UploadSafety.CrashPointIsRecoverable`, both directions).
- A link that takes effect and reports an error is rolled back in the record only. The file stays
  published, and from then on the active upload cannot be completed. Without a foreign file this is the
  only way its destination gets taken (`UploadOutcomes.DestinationTakenByOwnLink`,
  `UploadOutcomes.CompletableUnlessLinked`, with `UploadOutcomes.LinkErrorAfterEffect` as the witness).
- A stage name that was free at first is left behind exactly when a call ends or stops with the completed
  record saved and the stage still up, or the reaper removes an upload, in whatever state, whose stage is up,
  or enough of it to make it unusable, and nothing is published under the same id afterwards
  (`UploadLives.LeftBehindExactly`). It takes no stop: a link whose directory sync fails, and a client that
  never comes back, are enough (`UploadLives.SyncErrorThenReaped`; `UploadOutcomes.OrphanStageSurvives` is
  the case with a stop).
- A crash between `Mkdir` and the first save stops every later start-up; the directory is startable again
  exactly when the first record is there (`UploadStartUp.HalfCreatedUploadBlocksStartUp`). A removal by the
  reaper that stops half way does the same exactly when the record is gone, or part files an unfinished
  record mentions (`UploadStartUp.HalfReapedUploadBlocksStartUp`).
- Lowering `MaxPendingBytes` can leave a directory over its quota. It starts as before, and creation is
  refused until enough has expired or moved on (`UploadDirectory.TwoLargestUploads`,
  `UploadStartUp.StillStartable`, `UploadDirectory.CreateAfterLowering`).
- Start-up revives expired publications: an upload whose interrupted publication it settles gets a fresh
  expiry and is not reaped in the same start-up (`UploadStartUp.SettledIsLive`).
- `saveManifest` writes records that `loadManifest` refuses for their length, and then the reaper, `Create`
  and start-up all stop. Whether this can happen is known when an upload is created
  (`UploadRecordSize.PartRecordsFitExactly`); limits of up to 10000 parts leave room, and from 11523 parts on
  no full record loads (`UploadRecordSize.LimitsThatFit`, `UploadRecordSize.TooManyParts`).
- The reverse rename at the end of a cross-device `MoveItem` crosses the same devices and never undoes
  anything; what saves the item is that its copy is already whole (`ItemOperations.CopyThenRemove`).
- Extraction ignores whether its stage could be removed, so success may leave the stage directory, empty
  (`Archives.ExtractZip`).
- Extraction fails, and changes nothing if its rollback succeeds, when a top-level name of the archive
  equals the name the stage happens to get (`Archives.ExtractZip`).
- Evicting the oldest login attempt is right exactly when the empty address, which doubles as "none yet", is
  not a candidate or some other candidate is at least as old (`LoginLimiter.Manager.EvictOldest`,
  `LoginLimiter.EmptyAddressMisleads`).
- `safeWebAssetPath` accepts `..` itself besides relative paths of ordinary segments
  (`WebAssets.SafePathsExactly`).

## Model

| member | source | states |
|---|---|---|
| UploadParts.ExpectedPartsTile | upload_store.go:948-970 | for every size and chunk size the expected parts lie within one chunk each and sum to exactly the file size |
| UploadParts.PartCountBounds | upload_store.go:948-956 | the part count is the least number of chunks that holds the file, and at least one |
| UploadParts.AllIndexesPresent | upload_store.go:547-547 | pigeonhole: as many recorded parts as the part count leave no index out |
| UploadParts.SortedIndexes | upload_store.go:985-989 | the keys of the part map, each once, ascending |
| UploadParts.ReceivedRanges | upload_store.go:981-999 | ranges that are ascending, disjoint, never adjacent, and cover exactly the recorded indexes |
| UploadParts.CompactIsUnique | upload_store.go:981-999 | an index set has only one such description, so map order cannot show |
| UploadParts.ReceivedBytes | upload_store.go:1002-1005 | summing the parts in any order gives the sum index by index |
| UploadParts.FullStatus | upload_store.go:1001-1020 | with all parts present, status shows the single full range and received bytes equal to the size |
| UploadRecord.StageNames | upload_store.go:1036-1046 | stage names are recognised as such, tell uploads apart and can never be a requested file name |
| UploadRecordSize.PartRecordsFitExactly | upload_store.go:722-750 | for given limits and size: every record the upload may save below a given head loads again if and only if the one with all parts does, by a sum known at creation |
| UploadRecordSize.PartTextLength | upload_store.go:97-100 | the length used for a part's entry is that of its JSON text |
| UploadRecordSize.LimitsThatFit | upload_store.go:728-730 | with at most 10000 parts, 101 bytes for each of them and the head within 1 MiB are enough for every unfinished record to load |
| UploadRecordSize.TooManyParts | upload_store.go:728-730 | a valid record with 11523 parts or more, all present, never loads |
| UploadRecordSize.LimitsThatDoNotFit | config.go:59-69 | limits with such uploads pass validation |
| UploadProtocol.FullRecordHasAllParts | upload_store.go:547-547 | a valid record with as many parts as its part count has every index, and every file if its parts are intact |
| UploadProtocol.WholeFileLength | upload_publish.go:64-93 | what such a record assembles to has exactly the declared size |
| UploadProtocol.StepKeepsStore | upload_store.go:465-519 | every durable action of an upload, and anything others may do, keeps the store invariant |
| UploadProtocol.RunKeepsStore | upload_store.go:820-874 | in every run, at every stop: each part recorded in an active or finalizing record has a private file of its recorded size and digest, and a finalizing record misses none |
| UploadSafety.OwnStepTouchesOnlyItsNames | upload_publish.go:57-114 | no action of an upload replaces, removes or rewrites what any name but its stage shows, and it binds no name but stage and free destination |
| UploadSafety.DestinationIsPermanent | upload_publish.go:103-114 | from the moment the destination name is held, it keeps its inode and every byte through the rest of any run, although the stage shares the inode for a time |
| UploadSafety.LinksAtMostOnce | upload_publish.go:103-110 | one upload links its destination at most once in a run |
| UploadSafety.LifecycleIsMonotone | upload_store.go:452-458 | between any two points of a run: completed and cancelled records stay as they are, and an unfinished record never loses or changes a part |
| UploadSafety.CompletedMeansPublished | upload_publish.go:135-166 | whenever a record says completed, its destination exists with the recorded size and digest |
| UploadSafety.RunKeepsDestinationOurs | upload_store.go:300-310 | if nobody else takes the free destination name, a file found there while the upload is unfinished is byte for byte the parts |
| UploadSafety.CrashPointIsRecoverable | upload_store.go:262-330 | at every stop of every run without a foreign file, also one that starts with the upload's own file linked, recovery accepts if and only if the upload is not finalizing, or its directory resolves and the declared digest is absent or matches |
| UploadSafety.PublishedFileIsTheParts | upload_publish.go:64-114 | from a full record on, whatever is published is the concatenation of the parts recorded then |
| UploadSafety.LinkedFileIsTheParts | upload_publish.go:103-114 | from its link on the destination shows the concatenated parts byte for byte, whoever else is at work |
| UploadSafety.DeclaredDigestIsPublished | upload_publish.go:94-114 | in every run, from the completed record on, the destination has the digest that was declared at creation |
| UploadSafety.UploadsAreEachOthersEnvironment | upload_store.go:665-672 | each action of one upload is something every other upload's environment is allowed to do |
| UploadWorld.RunOfAllIsARunOfEach | upload_store.go:430-601 | every run of any number of uploads and everyone else over one tree is, for each upload, a run of its own protocol ending in the same state, so all single-upload results hold for each of them |
| UploadWorld.EachMovesOn | upload_store.go:430-601 | over such a run no record goes back and every record stays one validateManifest accepts |
| UploadWorld.PublishedStaysPublished | upload_publish.go:103-114 | over such a run a held destination keeps its inode and bytes, whatever all the other uploads do |
| UploadStore.NextRecordsAreValid | upload_store.go:783-828 | every record a transition goes on to save passes validateManifest |
| UploadStore.CompletedRecordSays | upload_publish.go:135-153 | a completed record names its file by the segments of the upload's directory and the requested name, and says when it was completed and when it expires |
| UploadStore.WhoIsLetIn | upload_store.go:643-663 | a record that loads is shown to the owner, method and token that made it and to nobody else, until it expires |
| UploadStore.InterruptedCompletes | upload_store.go:536-550 | an interrupted publication can be completed if and only if recovery accepts it |
| UploadStore.Store.Perform | upload_store.go:752-781 | one durable step: applied, refused, or applied with an error, then possibly interference; the run grows by legal actions only |
| UploadStore.Store.ReadPart | upload_publish.go:168-192 | a part is handed over only with its recorded length and digest |
| UploadStore.Store.VerifyUploadParts | upload_store.go:859-874 | succeeds exactly when every recorded part is intact |
| UploadStore.Store.PartsSha256 | upload_store.go:830-857 | the digest of the file the parts assemble to, exactly when they are all there and intact |
| UploadStore.Store.SaveManifest | upload_store.go:752-781 | the record becomes the new one or stays, and nothing private changes |
| UploadStore.Store.MarkCompleted | upload_publish.go:135-166 | in every outcome the destination file is untouched, the record is the old or the completed one, and while it is the old one no part and no stage has gone; without faults parts and stage are gone too |
| UploadStore.Store.RecoverFinalizing | upload_store.go:285-330 | a disk RecoveryAccepts does not name is refused and left as it was, whatever else fails; one it names is accepted if nothing fails; ends completed with matching destination, or active with every part; what it saves is dated, and an adopted file is named in the record |
| UploadStore.Store.RecoverManifest | upload_store.go:262-279 | the same for a record in any state, as start-up meets it: a refusal leaves the disk as it was, with faults too, and of a finished upload only private files go |
| UploadStore.RecoveryEstablishesStore | upload_store.go:262-330 | whatever was on disk, an accepted recovery establishes the store invariant; an interrupted publication is completed with the parts' length and digest or active with all parts |
| UploadStore.RecoveryIsStable | upload_store.go:262-330 | a recovered disk is accepted again and recovery then changes nothing |
| UploadStore.Store.Reset | upload_publish.go:117-133 | rolls back to an active record with every part, the stage gone and no other name touched, and returns the cause |
| UploadStore.Store.WriteStage | upload_publish.go:82-82 | the private stage shows the earlier content and some prefix of the bytes, all of them on success |
| UploadStore.Store.Assemble | upload_publish.go:64-93 | the stage holds all parts in index order with the declared size, exactly when every part is intact |
| UploadStore.Store.Seal | upload_publish.go:94-102 | records the digest of the assembled bytes when the declared digest is absent or equal, else rolls back |
| UploadStore.Store.BuildStage | upload_publish.go:57-102 | the tree gains exactly the stage with the whole file, or the publication is rolled back with the right error |
| UploadStore.Store.LinkAndComplete | upload_publish.go:103-114 | ends completed with a matching destination, or reports failure |
| UploadStore.Store.Publish | upload_publish.go:17-115 | without faults: succeeds exactly for publishable uploads, the tree then differing by the one new file; a taken name gives destination_exists and no change; any other failure is rolled back to active with all parts |
| UploadStore.Store.PlaceBody | upload_store.go:468-511 | the body becomes the part file exactly when length and digest are right; no other part file changes |
| UploadStore.Store.WritePart | upload_store.go:430-520 | records a part exactly when it was missing and right, with its length and digest and a fresh expiry; a repeat of a recorded part changes nothing; a different digest for it is a conflict and changes nothing; other parts are never touched; anybody but the creator with its token is answered not found and changes nothing; the exact answer in every state of record and part |
| UploadStore.Store.Complete | upload_store.go:522-555 | the exact outcome in every state, including recovery of an interrupted publication, absorbing finished states and destination_exists from an active record; success records the published path, the time and the expiry, and the file has the declared digest; only the creator with its token gets that far |
| UploadStore.Store.Cancel | upload_store.go:557-601 | cancels unless published, leaving the managed tree alone; a publication interrupted after the link is completed instead and reported as conflict; only the creator with its token gets that far |
| UploadOutcomes.RunKeepsStageReserved | upload_publish.go:40-63 | in every run from a free stage name only a finalizing or completed upload has a stage |
| UploadOutcomes.StageLeftBehind | upload_publish.go:154-164 | at every stop of every run, also under an id used before: recovery leaves the stage name behind if and only if the record is not finalizing and the stage, once created or found, has not been removed |
| UploadOutcomes.StageOnlyInherited | upload_publish.go:117-133 | an active or cancelled upload with a stage found it when it was created and has not been published since |
| UploadOutcomes.OrphanStageSurvives | upload_publish.go:154-164 | the witness: a stop right after the completed record is saved |
| UploadOutcomes.DestinationTakenByOwnLink | upload_publish.go:103-110 | from a free destination nobody else takes, at every stop the name is held if and only if this upload has linked it |
| UploadOutcomes.CompletableUnlessLinked | upload_store.go:522-555 | an active upload with all its parts can be completed if and only if its directory resolves, the declared digest is absent or right, its stage name is free or a file, and none of its own links took effect before |
| UploadOutcomes.LinkErrorAfterEffect | upload_publish.go:105-110 | the witness: link with effect and error, then reset, leaves the file published under an active record that can no longer be completed |
| UploadOutcomes.LeftoversNeverMatter | upload_store.go:465-473 | two disks that agree on the record, the tree and the recorded parts get the same verdict from recovery and from completion and end with the same record and tree |
| UploadLives.LeftBehindAfterEvent | upload_store.go:612-641 | one call, stop, recovery, reaping or creation, the last two whole or half: the stage name is left behind after it if and only if a completed record is down with the stage up, or the upload is reaped, or wrecked by a half reaping, with its stage up, or it was left behind before and no publication began; reaping takes no name out of the tree |
| UploadLives.LeftBehindExactly | upload_store.go:612-641 | the same over whole lives of an upload id, reuse of the id included |
| UploadLives.WreckIsRefused | upload_store.go:215-220 | recovery refuses an upload whose record, or a part its record needs, is gone |
| UploadLives.SyncErrorThenReaped | upload_publish.go:103-114 | the witness without a stop: link, failed directory sync, expiry; the published inode keeps its stage name and no record is left |
| UploadDirectory.MovingOnFreesQuota | upload_store.go:696-720 | records that only move on never raise the reserved count or bytes |
| UploadDirectory.RunsOnlyMoveOn | upload_store.go:696-720 | every run of any number of uploads looks from here like records moving on, and frees quota if anything |
| UploadDirectory.AcceptedRequestMakesValidRecord | upload_store.go:386-407 | every request validateCreate lets through makes a record that passes validateManifest, and that loads if and only if its text is within 1 MiB |
| UploadDirectory.CreateVerdicts | upload_store.go:674-694 | which requests are accepted and what the others are told, digests in either case included |
| UploadDirectory.NewRecordCarries | upload_store.go:386-407 | the record of an accepted request has its cleaned path, name, size and lower-cased digest, its caller and token, and expires after the inactivity time |
| UploadDirectory.RequestedDigestIsPublished | upload_store.go:386-407 | from request to file: an upload created with a digest and completed at any point of any run has put a file of that digest at the place asked for |
| UploadDirectory.UnexpiredIs | upload_store.go:617-639 | what the reaper leaves is what has not expired, in order |
| UploadDirectory.WhatIsReserved | upload_store.go:711-717 | active and finalizing uploads count, each with its size; finished ones do not |
| UploadDirectory.PartLimitNeverBites | upload_store.go:690-692 | under validated limits the part limit in validateCreate is unreachable |
| UploadDirectory.Directory.RemoveUpload | upload_store.go:628-632 | removing an upload frees its quota and touches nothing in the managed tree; a removal that fails leaves any part of the directory, never anything new, and reserves no more |
| UploadDirectory.Directory.ReservationsLocked | upload_store.go:696-720 | for any directory, over its limits or not: with unlocked reads the verdict for every request size lies between the exact one at the start of the scan and the exact one at its end; left alone the sums are exact up to the limit, the early return is taken exactly above it, and nothing overflows int64 |
| UploadDirectory.Directory.ReapOne | upload_store.go:617-639 | one round of the reaper removes exactly an expired upload, stops at one that does not load, and never raises what is reserved, by the expiry of its record alone |
| UploadDirectory.Directory.ReapExpired | upload_store.go:612-641 | without faults succeeds exactly when all uploads load and then has removed exactly the expired ones, in order; after any failure no more is reserved than before |
| UploadDirectory.Directory.AddUpload | upload_store.go:380-414 | adds the new upload within the quota; on failure, a save that takes effect and errs included, at most its own directory is left and the others have only moved on |
| UploadDirectory.Directory.Admit | upload_store.go:370-414 | a new upload is admitted only into a directory that is within its quota afterwards; without faults exactly when its size fits the exact sums |
| UploadDirectory.Directory.Create | upload_store.go:332-415 | the quota on count and bytes is kept in every outcome, and a directory over it never gets further away; busy is answered only if there was no room when the call began; without faults the exact result for new, repeated, foreign, conflicting and over-quota requests; the new record carries what was asked for, by whom, and when it expires, and the same request again finds it |
| UploadDirectory.TwoLargestUploads | config.go:59-69 | lowering the limit on pending bytes leaves a directory that is kept and over its quota |
| UploadDirectory.CreateAfterLowering | upload_store.go:370-376 | a restart under such a limit answers busy to every new upload until something expires or moves on, and touches nothing |
| UploadDirectory.CreateTwice | upload_store.go:351-366 | the same request again is answered existing, a changed one conflict, another caller not found, and none of them changes anything |
| UploadStartUp.NotSeenByRecovery | upload_store.go:285-330 | dropping stages of other uploads changes neither the verdict nor the result of an upload's recovery |
| UploadStartUp.Server.RecoverOne | upload_store.go:214-220 | loads and recovers one upload with the exact verdict and result, moves its record only forward and leaves the others alone |
| UploadStartUp.Server.RecoverAll | upload_store.go:202-222 | without faults accepts exactly when every upload loads and its recovery accepts what was there before anything was recovered |
| UploadStartUp.Server.StartUp | upload_store.go:202-224 | without faults succeeds if and only if that holds and the recovered records load again; the server then starts with the recovered uploads, each as recovered on its own, minus the expired ones; a directory without a record always stops it; reaping leaves the managed tree as recovery left it; a quota that held before holds for the server |
| UploadStartUp.StillStartable | upload_store.go:202-224 | lowering the limit on pending bytes changes nothing about whether a directory starts up |
| UploadStartUp.SettledIsLive | upload_store.go:323-329 | an upload whose interrupted publication start-up settles is live afterwards, however long ago it had expired |
| UploadStartUp.HalfCreatedUploadBlocksStartUp | upload_store.go:215-217 | what Create adds to a startable directory keeps it startable if and only if the first record has been saved |
| UploadStartUp.HalfReapedUploadBlocksStartUp | upload_store.go:628-632 | what an unfinished removal by the reaper leaves of an upload keeps a startable directory startable if and only if the record is left and, unless it is finished, every part it mentions |
| UploadLocks.StripeOf | upload_store.go:665-672 | every upload id has one of the 64 stripes |
| UploadLocks.Fnv1aVectors | upload_store.go:665-672 | the stripe hash agrees with published vectors of FNV-1a |
| UploadLocks.RunKeepsConsistent | upload_store.go:603-663 | in every interleaving the locks name exactly the threads that hold them |
| UploadLocks.OperationsNeverOverlap | upload_store.go:607-663 | no reachable state has two threads inside the same upload, the reaper included |
| UploadLocks.ReapMuIsExclusive | upload_store.go:341-351 | no reachable state has two threads that both hold reapMu |
| UploadLocks.NoDeadlock | upload_store.go:341-351 | while any thread has work left, some thread can go on, even when stripes are shared |
| UploadLocks.OperationsFinish | upload_store.go:612-641 | without new arrivals every run is bounded by the work there is, so all operations end |
| Paths.SplitJoin | utils/path.go:80-110 | splitting a joined path gives back its segments |
| Paths.CleanRelativeOnlyFlipsSlashes | utils/path.go:80-110 | an accepted path is the input with backslashes flipped, all its segments are valid names, and cleaning again changes nothing |
| Paths.CleanRelativeExactly | utils/path.go:80-110 | accepted are exactly the paths all of whose segments are valid names, and the root where it is allowed |
| Paths.DevicesAreRefused | utils/path.go:181-198 | device names are refused in any case and with any extension |
| Paths.OthersAreRefused | utils/path.go:181-198 | dots, forbidden characters, a final dot or blank and the upload store's own names are refused |
| Paths.OrdinaryIsAccepted | utils/path.go:181-198 | ordinary names are accepted |
| FileTree.RenameKeepsWellFormed | utils/operations.go:229-230 | a rename keeps every entry below a directory |
| FileTree.RenameBack | utils/operations.go:400-402 | renaming back undoes a rename onto a free name exactly |
| BatchOperations.ValidateSelection | utils/operations.go:44-85 | accepts exactly distinct current children that the listing authorises in the same version, and returns them all, sorted; the first item that is gone or changed decides between not found and source changed |
| BatchOperations.SortByRelative | utils/operations.go:83-83 | a permutation of the items in byte order of their relative paths |
| BatchOperations.StagingNameComesLater | utils/operations.go:83-83 | sorted, a name that equals another item's staging name belongs to a later item |
| BatchOperations.RevalidateSelection | utils/operations.go:128-168 | accepts exactly a non-empty bounded selection of distinct, unchanged children; the first item that is gone or changed decides between not found and source changed |
| BatchOperations.ValidateDestination | utils/operations.go:111-123 | accepts exactly when the destination is another directory, no target exists and no selected directory contains it; otherwise the first obstacle decides the answer |
| BatchOperations.PreflightIsReady | utils/operations.go:87-168 | the checks leave the destination outside every item, files included, with all targets free |
| BatchOperations.MoveOne | utils/operations.go:397-398 | moving one more item of a half-done batch succeeds onto a free name and yields the next stage of the simultaneous relocation |
| BatchOperations.MoveOneBack | utils/operations.go:399-403 | one reverse rename is possible and takes back exactly its item, whatever subset has been taken back already |
| BatchOperations.MoveBack | utils/operations.go:399-403 | every reverse rename that does not fail takes back its item, whichever others failed; if none fails the tree is exactly the one before the first move |
| BatchOperations.BatchMove | utils/operations.go:383-406 | success is the simultaneous relocation of all selected subtrees; failure at any index gives back exactly the original tree if the reverse renames succeed, and the relocation of some of the items if not; without faults it succeeds exactly when the checks pass; nothing moves if any item is gone or is not in the version listed, and the answer names the first obstacle |
| BatchOperations.MoveConservesEntries | utils/operations.go:383-406 | a finished move keeps every entry, at its old or its matching new place, and shows nothing else |
| BatchCopying.CopyEntry | utils/operations.go:504-548 | an exact copy of the whole subtree, or a failure that touched nothing outside the target |
| BatchCopying.PlaceOne | utils/operations.go:346-359 | copying one more item to its staging name adds exactly that to a half-staged batch |
| BatchCopying.NextNameIsFree | utils/operations.go:360-376 | the next name to be promoted is free and is not the staging name of anything still waiting |
| BatchCopying.PromoteOne | utils/operations.go:360-376 | promoting one more entry overwrites nothing and keeps all others in place |
| BatchCopying.StageCopies | utils/operations.go:336-359 | all items staged, or the original tree if the clean-up succeeds, or changes only under names that were free |
| BatchCopying.PromoteCopies | utils/operations.go:360-377 | all copies under their own names, or the original tree if the clean-up succeeds, or changes only under names that were free |
| BatchCopying.BatchCopy | utils/operations.go:318-378 | success adds exact copies of all selected subtrees and changes nothing else; failure restores the original tree if the clean-up succeeds, and if not leaves changes only under target and staging names that were free; without faults it succeeds exactly when the checks pass and no staging name is taken; nothing is copied if any item is gone or is not in the version listed, and the answer names the first obstacle |
| ItemOperations.MoveItem | utils/operations.go:202-270 | success is exactly what one rename would do, across devices too; in every outcome the item is whole at its old or its new place; other failures restore the tree; the first failed check decides the answer |
| ItemOperations.CopyThenRemove | utils/operations.go:233-269 | the cross-device part: staged copy, publication, removal; after a failed removal the new place is whole and the reverse rename never applies |
| ItemOperations.MovedLikeRename | utils/operations.go:233-269 | copy, publish, remove and unstage add up to the tree of a single rename |
| ItemOperations.TargetStaysWhole | utils/operations.go:259-267 | however much of the source a failed removal took, the target shows all of it and nothing else changed |
| ItemOperations.CopyItem | utils/operations.go:272-314 | an exact copy under a free name, or no change if the clean-up succeeds; the first failed check decides the answer |
| Archives.AcceptedNames | utils/archive.go:289-332 | an accepted entry name is its dot-segment reduction into valid segments, strictly below the base, and its first segment is its top-level name |
| Archives.AcceptedNamesExactly | utils/archive.go:289-332 | and every relative name whose reduction is not empty and has valid segments only is accepted |
| Archives.EntryAtIsExact | utils/archive.go:407-456 | what a clash-free archive puts at a path: its file, or a directory exactly when it is an entry or implied parent |
| Archives.TotalOfBoth | utils/archive.go:384-405 | the size that is limited is the sum over the entries |
| Archives.MkdirAll | utils/archive.go:424-433 | makes exactly the missing directories on the way, and fails only at a file |
| Archives.ExtractEntry | utils/archive.go:419-454 | one more entry in the stage exactly when it clashes with none before |
| Archives.ValidateZipEntries | utils/archive.go:384-405 | accepts exactly archives within the limits with only supported kinds, accepted names and free top-level names, and returns those names sorted; each refusal has its reason |
| Archives.PreflightExtractionTargets | utils/archive.go:334-358 | all names accepted and all top-level targets free, and the sorted set of top-level names |
| Archives.FillStage | utils/archive.go:419-454 | the stage holds exactly the archive, exactly when no two entries clash; nothing outside it changes |
| Archives.PromoteStage | utils/archive.go:368-382 | all top-level names moved out of the stage, or all moved back, or, if reverse renames fail, some of them out and whole |
| Archives.PromotedIsExtracted | utils/archive.go:368-382 | promotion leaves nothing of the archive in the stage but its empty directory: the output shows its entries and everything else is as before |
| Archives.ExtractZip | utils/archive.go:407-456 | success: outside the stage the output gains exactly the entries and implied directories, and of the stage at most the empty directory is left; failure: unchanged if the rollback succeeds, and if not each top-level name outside the stage shows nothing new or all its entries and the rest is as before; without faults it succeeds exactly for valid clash-free archives, unless a top-level name is the stage's; an archive over the limits, with an unsupported entry or a refused name, changes nothing |
| Archives.ScanTarGz | utils/archive.go:458-492 | the streaming checks accept the same archives as the ones on a complete list |
| Archives.ExtractTarGz | utils/archive.go:494-557 | the same transaction for the two-pass form |
| LoginLimiter.Manager.Cleanup | auth/auth.go:472-500 | removes exactly the attempts whose cool-down is over and whose check is not running: a minute after the lock-out or the last failure |
| LoginLimiter.Manager.EvictOldest | auth/auth.go:453-470 | never evicts a running check; chooses an oldest other entry, or none when there is none, if and only if the empty address is not a candidate or another candidate is at least as old |
| LoginLimiter.EmptyAddressMisleads | auth/auth.go:233-238 | a full table of 4096 entries on which a login must evict and the only right choice is the one never made |
| LoginLimiter.Manager.LoginOnFullTable | auth/auth.go:224-241 | on that table a login keeps the oldest entry and is refused or drops another |
| LoginLimiter.Manager.BeginLogin | auth/auth.go:224-241 | the first locked section as a function of the table, with room made only when it is needed; the oldest entry then makes room if and only if the empty address is harmless |
| LoginLimiter.Manager.FinishLogin | auth/auth.go:262-280 | the last locked section as a function of the table |
| LoginLimiter.RunKeepsFlights | auth/auth.go:224-280 | the single-flight invariant over every interleaving of any number of logins |
| LoginLimiter.SingleFlight | auth/auth.go:224-280 | one check per address, four checks in all, at most 4096 entries, and with a monotone clock the rejection after the check is unreachable |
| LoginLimiter.RunningCheckSurvivesBegin | auth/auth.go:453-500 | neither clean-up nor eviction touches the entry of a running check |
| LoginLimiter.RunKeepsLogs | auth/auth.go:271-280 | in every interleaving the table remembers enough of each address's recent failures |
| LoginLimiter.SlidingWindow | auth/auth.go:224-280 | among any six consecutive failed checks of one address, without success or eviction between them, two neighbours are at least a minute apart |
| LoginLimiter.NobodyIsLockedOutEarly | auth/auth.go:224-241 | in every interleaving a login is turned away at the door only while its address is being checked, within a minute of the last of at least five failures, or when the table of 4096 is full and nothing is evicted |
| AuditLogs.LinesAndTail | runtime.go:93-115 | any file is its complete lines followed by what comes after the last newline |
| AuditLogs.ReadBack | runtime.go:93-115 | written records read back as exactly themselves, with the torn end as the tail |
| AuditLogs.TrimIs | runtime.go:93-110 | trimming takes blanks off both ends and nothing else |
| AuditLogs.ValidateBytes | runtime.go:80-117 | accepts exactly files whose complete lines are all good, and cuts off exactly a torn last line |
| AuditLogs.RepairIsIdempotent | runtime.go:96-104 | repair keeps every complete line, leaves nothing torn, and repairing twice is repairing once |
| AuditLogs.MovingUpKeepsOrder | runtime.go:192-201 | moving a generation into an empty slot loses nothing and keeps age order |
| AuditLogs.AuditLog.MoveUp | runtime.go:192-205 | a rename of the rotation never lands on an occupied slot |
| AuditLogs.AuditLog.RemoveOldest | runtime.go:186-191 | the one step that gives up records, and only those of slot 5 |
| AuditLogs.AuditLog.Rotate | runtime.go:178-217 | whichever step fails the slots stay in age order and at most slot 5 is lost; on success every generation has moved up one and the active file is empty |
| AuditLogs.AuditLog.Record | runtime.go:146-176 | success means the whole line is down after all earlier ones; any failure leaves the log unhealthy so nothing follows a torn line; without faults a line that fits is appended and nothing else changes, and one that does not fit rotates exactly once and starts the new file |
| AuditLogs.RecordAll | runtime.go:146-176 | any list of records whose text fits the active file is appended to it; nothing rotates and nothing is lost |
| AuditLogs.AuditLog.OpenAuditFile | runtime.go:119-144 | after any interrupted append or rotation the active file is accepted and holds exactly its finished records |
| AuditLogs.AuditLog.Reopen | runtime.go:52-61 | a new process accepts whatever was left, and the active file parses to exactly the records whose write finished |
| AuditLogs.AuditLog.After | runtime.go:52-61 | a new process takes over the files of an earlier one as they are |
| AuditLogs.Restart | runtime.go:52-61 | after any faults of an earlier process, a new one without faults opens the log, finds every finished record and cuts off a torn line |
| WebAssets.SafePathsExactly | web.go:145-151 | the accepted asset paths are exactly the relative paths of ordinary segments, and `..` |
| WebAssets.LoadWebAssets | web.go:81-129 | accepts exactly the servable manifests in any iteration order, and the public files are exactly those some entry names; in full: safe names and paths, known imports, present files and the index as the only entry |
| WebAssets.Walker.Add | web.go:199-214 | the recursive walk terminates on cyclic manifests; everything it newly sees is emitted once, after its imports or on a path with them |
| WebAssets.ClosedHoldsReachable | web.go:200-212 | a set of modules closed under imports holds everything reachable |
| WebAssets.ImportedFirst | web.go:196-216 | a module on no import cycle is emitted before every importer |
| WebAssets.UniqueAssetPaths | web.go:218-228 | keeps the first occurrence of each path |
| WebAssets.FirstOccurrencesAre | web.go:218-228 | no path twice, none missing, none added, in order of first occurrence |
| WebAssets.ResolveEntryAssets | web.go:196-216 | for any manifest: without duplicates exactly the stylesheets of the entry and of all modules reachable by static imports, from a walk that emits each of them once |
| WebAssets.ResolvedIsPublic | web.go:86-129 | everything the page of an accepted bundle asks for is present and served |

## Left out

- HTTP routing, handlers, headers, cookies, CSRF, audit calls in handlers and the request gate: plumbing that would only add easy members.
- Real cryptography, JSON encoding and random tokens: the digests and `json` are arbitrary functions, and an encoded event is a non-empty object on one line.
- The clock: a time argument, positive, and monotone where the login limiter needs it and where a wrecked upload stays expired.
- Platform locks, file modes, modification times and ownership checks. `EntryVersion` is an arbitrary function of a node.
- Path resolution, symbolic links and their races, case-insensitive names: a path is a list of accepted segments. Names are sequences of characters without an encoding.
- UploadParts.PartCountBounds: unbounded integers; `size + chunkBytes - 1` is not shown to fit int64 for limits near its maximum.
- UploadStartUp.Server.StartUp: a record under another upload's directory name is not considered, since the store never writes one; names in the state directory that are no upload are left out too.
- UploadRecordSize.PartRecordsFitExactly: the text of a record without its parts is an arbitrary length, which JSON escapes in names and paths determine.
- UploadDirectory.Directory.Create: free space on the volume is a fault that may or may not occur.
- UploadStore.Store.Perform: a record is a value that is replaced whole, where the code changes one in memory and then saves it; errors without a code of their own are all `Failed`.
- UploadSafety.CrashPointIsRecoverable: leaves out the reaper's removal of a whole upload, which `UploadDirectory`, `UploadStartUp` and `UploadLives` have.
- UploadLocks.OperationsNeverOverlap: what a thread does while it holds a stripe is one step; `UploadStore` has the steps.
- Reordering by the operating system of changes it has not been told to sync: a directory or file sync is success or failure.
- FileTree.FileSystem.RemoveAll: on failure it promises only that nothing outside the removed path changed and nothing below it is new.
- BatchOperations.BatchMove: the volume test before the moves, which only matters on Windows.
- Archives.ExtractTarGz: both passes read the same archive contents.
- AuditLogs.ValidateBytes: blanks are the ASCII ones; U+0085 and U+00A0 count as ordinary characters.
- LoginLimiter.Manager.FinishLogin: opening the session after a successful check, and the sessions, listings and tickets the manager also keeps.
- Creating archives, batch deletion, renaming, making files and directories, listings, file properties, the editor and legacy chunk uploads: easier members of the same kinds.
- Other writers during a tree operation: `operationMu` keeps other tree operations out, but publication does not take it, so these results are for a run without outside writers.
- The React interface and third-party build output.
