# Fram: a verified model of its durable store and the structures built on it

Fram keeps a space of propositions in an append-only log. A proposition is a `Triple` of terms; a
commit is a frame of assertions and retractions; everything a reader sees is derived from the frames.
This project models the parts of Fram that have to agree with each other, and proves that they do:

- **The log** (`Bytes`, `Terms`, `Frames`, `FrameLog`, `TornTail`, `RoundTrip`, `WireFormat`, `LogIO`): the
  FRAMLOG bytes, the term codec inside them, what a cut or damaged tail reads as, and what an append adds.
- **The occurrence store** (`TermStore`, `Coordinates`): live stacks, withdrawal targets, coordinates
  and supersession. `SlotIndex`, `Interned` and `InternedLog` hold the same store as it is laid out in
  memory: hash-consed terms, handles, buckets. `InternedLog.Mirrors` relates the two.
- **Commits** (`Requests`, `Durability`, `Fence`, `GroupCommit`, `Receipts`, `Database`): write-ahead
  append, the fence that reconciles memory with the disk after an ambiguous append, group commit, and what
  a caller is told.
- **Leases** (`Leases`, `Withdrawals`, `LeaseSafety`, `LeaseFencing`, `LeaseAnswers`, `LeaseRuns`): exact
  withdrawal, and fencing tokens built on supersession.
- **Branches** (`BranchText`, `BranchTextRoundTrip`, `BranchTextParsing`, `Branches`, `BranchOpening`,
  `Forks`, `ForkAcceptance`, `ForkCrash`, `ForkFiles`, `ForkOutcome`, `ForkHistory`, `ForkRetry`, `ForkVolume`):
  references and fork markers as the text they are printed as, which files open as a branch and which
  allow a fork, and a fork as an ordered list of atomic file steps, with crashes between them.
- **The JVM server** (`History`, `Checkpoints`, `CheckpointFiles`, `Preflight`, `FastPath`, `RowOrder`,
  `ServedOrder`, `Sequencer`, `ResultCache`, `CacheEviction`, `CacheRuns`, `Paging`): replayed snapshots
  and the checkpoint files they start from, predicted commits, the one-pattern query path and the order
  its rows are served in, cohorts, the single-flight result cache and what it evicts, and cursors.
- **The native server** (`NativeHeap`, `NativeStorage`, `NativeServer`, `Clients`, `Admission`):
  reference-counted store generations, write-ahead dispatch, compaction, the client table under its lock,
  and who is admitted to it.
- **The covering index** (`Rotations`) and **the owned-block editor** (`OwnedBlock`,
  `OwnedBlockRoundTrip`, `OwnedBlockText`).
- `ForkWitnesses` and `CohortWitness` hold inputs on which the code does what the section below says.

Code that updates things in place is modelled in place: `Database.Database`, `Database.LogFile`,
`LogIO.OutputStream`, `Interned.Interner`, `ForkVolume.Volume`, `NativeStorage.Storage`,
`NativeServer.Server`, `Sequencer.Sequencer` and `ResultCache.Cell` are classes whose methods are tied
to functions on values; the properties are then proved about those functions, for every run where a
run is what matters. Two threads that interleave (`Clients`, `CacheRuns`) are state machines over
every order of their steps. What the outside world decides is a parameter: how many octets of an
append reach the disk (`fault`), where a fork crashes, which allocations fail, the clock, the host's
hash functions, CRC-32, GZIP, UTF-8 validation, SHA-256 and `json.dumps`.

To verify: `dafny verify dfyconfig.toml`.

## What the code does that its documentation does not say

The model follows the code. These are the cases a reader of the documentation would not expect. For each
the exact condition is proved, and where the case can be reached from a store as created, or from any
healthy one, a lemma shows the input that reaches it.

- **A torn frame loses the compression flag.** `database.clj:305-311` leaves `:deflate?` out of its
  result, so a database opened on a compressed log with a torn frame writes raw frames after the
  repair. `LogIO.AppendSurvivesRepairIff` and `GroupCommit.OpenIsSafeIff` say exactly when that harms.
- **The fence cannot reconcile a branch tail.** `fence-and-reconcile!` reads the log with continuation
  refused (`database.clj:1077`), so a failed append on the tail of a forked branch ends in `:corrupt`
  (`Fence.FailedAppendReconciles`), although D4 of `docs/guarantees.md` allows both outcomes. Any store
  that forks shows it, however many octets of the append arrive (`ForkWitnesses.ForkedTailEndsCorrupt`);
  a new one shows it with one assertion (`ForkWitnesses.NewForkEndsCorrupt`).
- **A fork's working names can be branch names.** `x.fork-new` and `x.snapshot` are valid branch names.
  A child called `<parent>.fork-new` does not survive a crash (`ForkCrash.ForkSurvivesCrashesIff`): a new
  store accepts `main.fork-new` and loses it (`ForkWitnesses.CrashLosesChild`). A parent called
  `<child>.fork-new`, or a child called `<parent>.snapshot`, costs one of the two branches
  (`ForkHistory.ForkOpensIff`); and third branches with such names lose a file
  (`ForkOutcome.OtherBranchKeptIff`).
- **A branch to which nothing was committed since it last forked cannot be forked again**: its tail would be
  sealed a second time (`ForkAcceptance.UntouchedForksOnce`). The first two forks of a new store differ only
  because its log is no continuation yet (`ForkAcceptance.NewStoreForksTwice`).
- **A first fork needs a log that starts at sequence 1**, and a reference whose counts have at most 18
  digits and whose space id fits a line (`ForkHistory.ForkOpensIff`, `BranchTextRoundTrip.RefRoundTripIff`).
- **Retrying a fork can say that its branch exists.** Once an attempt has got as far as the marker, the
  retry completes the fork and then refuses (`ForkRetry.ForkRetries`).
- **A group commit can report less than it did.** When one frame cannot be encoded, the whole cohort is
  reported ambiguous though its leading frames are durable (`GroupCommit.GroupCommitRefinesSerial`). Any
  healthy uncompressed database shows it with a term nested too deep (`CohortWitness.DeepCohortIsAmbiguous`).
- **A renewal does not check its time to live**: `renew-lease!` accepts one that has already run out,
  where `acquire-lease!` refuses it (`LeaseFencing.RenewSucceedsIff`).
- **Preflight walks the effective view but retraction works on raw liveness.** Its decisions come true
  for every list of actions exactly when no live occurrence is superseded
  (`Preflight.PreflightIsExactIff`); two commits are enough to mislead it
  (`Preflight.ReplacedIsMispredicted`).
- **A late build can be counted twice.** `drop-query-caches!` keeps the generation when it is called at
  `server.clj:874` and `server.clj:888`, so a build already in flight may land on a key retained meanwhile
  (`CacheRuns.CompletionIsExactIff`, over a whole run `CacheRuns.RunIsExactIff`); five steps do it
  (`CacheRuns.DroppedUnderABuild`).
- **Dropping the caches can be lost.** It writes the result cache without the lock the readers hold
  (`server.clj:245-250`). Every such run is a run of whole steps without the lost drops
  (`CacheRuns.UnlockedDropRefines`), but the cache then stays on the old generation and retains no build
  of the new one until it is dropped again (`CacheRuns.LostDropRetainsNothing`).
- **A dump may start at sequence 0**, which no log that replays does: loading wants its sequences to rise from
  0, replay from 1 (`CheckpointFiles.RestoresIff`, `CheckpointFiles.ReplaysIff`).
- **A dump may hold a row twice.** Loading accepts it; interning still works, but a handle is found again
  exactly when no row is repeated (`Interned.EachIsFoundIff`).
- **A last line that is an unfinished begin marker is completed by the separator** that `set` adds
  (`OwnedBlockRoundTrip.UnsetUndoesSetIff`), and `unset` deletes a file that was empty before `set`; both
  happen on the two shortest such files (`OwnedBlockRoundTrip.UnfinishedMarkerIsCompleted`).

## Model

| member | source | states |
|---|---|---|
| Terms.TermRoundTrip | out/framrpc.clj:82-185 | every term within the depth bound, written and followed by any octets, reads back as itself and leaves those octets |
| Terms.TermCanonical | out/framrpc.clj:161-185 | octets that decode are exactly the encoding of what they decode to |
| Bytes.LittleEndianCanonical | database.clj:53-66 | little-endian octets rewritten from their value are the same octets |
| Frames.PayloadRoundTrip | database.clj:180-238 | a frame's payload decodes to that frame |
| Frames.PayloadCanonical | database.clj:201-238 | a payload the reader accepts is the one the writer produces for its frame |
| LogIO.WriteTransactionFrame | database.clj:180-199 | the stream gains one whole frame, or nothing at all and a failure exactly when the frame has no byte form |
| LogIO.WritePayload | database.clj:180-193 | succeeds exactly on encodable frames, with the payload the reader takes apart |
| LogIO.ParseTripleLog | database.clj:245-334 | the cursor loop returns, on every input, what the recursive reading of the whole log returns, faults included |
| RoundTrip.LogRoundTrip | database.clj:245-334 | a written log reads back as its header and frames, each frame ending where it was written, with a clean tail |
| RoundTrip.AppendReadsBack | database.clj:420-435 | frames appended to any clean log read as the old frames followed by the new ones |
| RoundTrip.HeaderCanonical | database.clj:256-280 | a header that parses is valid and is the written form of itself |
| RoundTrip.CleanLogIsCanonical | database.clj:245-334 | an uncompressed log that reads clean is the written form of what it reads as |
| TornTail.CutReadsWholePrefix | database.clj:281-311 | any readable log cut at any offset from its header on reads as exactly the frames that end by the cut, and is torn exactly off a frame boundary |
| TornTail.RepairReadsClean | database.clj:451-457 | truncating to the valid octets reads clean with the same frames |
| WireFormat.NumbersAre | database.clj:53-66 | two and four octets hold a number lowest octet first, eight hold one in two's complement |
| WireFormat.TermIsWritten | out/framrpc.clj:102-128 | position by position the octets of a term: its tag, then the text with its length, the number, the instant or the three parts |
| WireFormat.FrameIsWritten | database.clj:180-199 | position by position the octets of a frame: the stored length, the sequence, the operation count, each operation with its ordinal and action code, and the checksum of what is stored |
| WireFormat.HeaderIsWritten | database.clj:374-387 | position by position the octets of a header: the magic, version 1, the two flags, and the space with its length |
| WireFormat.TornTailIff | database.clj:281-311 | whatever follows a clean log is a torn tail exactly when it breaks off inside its first frame; the log then reads as before, and the reason says whether not even a length is there |
| LogIO.AppendSurvivesRepairIff | database.clj:305-311 | a frame written after a repair reads back exactly when the lost compression flag was unset, or nothing was torn, or inflating its raw payload would give that very payload |
| TermStore.StackOfMeetsSpec | out/fram/store.clj:385-396 | the live stack of a proposition is exactly its unmatched assertions, oldest first |
| TermStore.LiveIffUnmatched | out/fram/store.clj:575-586 | a position is live exactly when no stretch of later rows retracts its proposition more often than it asserts it |
| TermStore.WithdrawalsAreExact | out/fram/store.clj:385-396 | a retraction withdraws the newest live equal assertion before it, and no assertion is withdrawn twice |
| TermStore.ReplayConsistent | out/fram/store.clj:410-427 | replay keeps every indexed stack and every withdrawal target equal to its definition over the rows |
| Coordinates.EffectivePositions | database.clj:935-951 | the occurrences a reader sees are, in coordinate order, exactly the live ones no live supersession names |
| Requests.CanonicalIff | database.clj:970-983 | a term can be recorded exactly when every integer in it, and the seconds of every instant, fit 64 bits |
| Requests.PrepareAcceptsIff | database.clj:956-1051 | a request is refused exactly when its base is not the current transaction, it asks for nothing, the tail is torn, or an operation or metadatum cannot be recorded |
| Requests.PreparedFrameSays | database.clj:1011-1051 | the frame holds the operations in order and then exactly the metadata asked for, about the coordinates they are about to get |
| Requests.WithdrawalsAreReported | database.clj:1155-1172 | the pairs listed for a stretch of rows are exactly the retractions in it that have a target, each with that target |
| Requests.PreparedFrameReplays | database.clj:1126-1148 | a request that passes every check yields a frame the store always accepts next |
| Durability.AppendLeavesWholeFrames | database.clj:420-435 | however many octets of an append arrive, the disk reads as the old frames and then the new ones whose octets all arrived |
| Fence.AppendedLogReads | database.clj:420-435 | the same for any append, stopped by a fault or by a frame that cannot be encoded |
| Fence.FailedAppendReconciles | database.clj:1068-1111 | after a failed append memory is the replay of exactly the frames whole on the disk and the status is fenced; on a continuation tail the status is corrupt instead |
| Fence.CommitKeepsSafe | database.clj:1126-1176 | one commit, failing after any octet or not, keeps memory the replay of the log |
| Fence.CohortKeepsSafe | database.clj:1178-1218 | so does a whole cohort under one barrier |
| Fence.EveryRunIsSafe | database.clj:1053-1218 | over every run of commits and cohorts with arbitrary faults, memory is the replay of the log and the database is never corrupt |
| Fence.FencedForGood | database.clj:836-870 | once the database has left ready, nothing later in any run changes memory, log or status |
| GroupCommit.GroupCommitRefinesSerial | database.clj:1178-1218 | without a storage fault a cohort leaves the memory, log and status of committing one at a time, and reports the same outcomes and versions exactly when every frame can be written |
| Receipts.CommitAnswers | database.clj:1126-1176 | a commit is refused, changing nothing, exactly when the database is not ready or the request is not acceptable; it commits exactly when its frame is recorded too, the log then gains exactly that frame, and the receipt tells what changed; otherwise it is ambiguous and the database is fenced |
| Receipts.CommittedTells | database.clj:1126-1172 | a receipt names the transaction, gives every operation its coordinate with the action and proposition asked for, and lists in row order exactly the withdrawals the request's own rows made |
| Receipts.ReportedIff | database.clj:1155-1172 | a pair is in a receipt's withdrawals exactly when one of the request's own rows withdrew it |
| Receipts.NextBaseIsReceipts | database.clj:956-1176 | the transaction a receipt names is the one base the next request may give |
| Receipts.CurrentIsLast | out/fram/store.clj:138-142 | after any history the current transaction is the last frame's, and 0 before there is any |
| Receipts.NotReadyBecause | database.clj:1126-1132 | a fenced database asks for recovery and a corrupt one says so |
| Receipts.RequestRefused | database.clj:956-1051 | which refusal answers a base that is malformed, of another space or not current, an empty request and a torn tail |
| Receipts.OperationRefused | database.clj:956-1051 | the first operation the store cannot hold decides the refusal |
| Receipts.MetadataRefused | database.clj:956-1051 | what is said of the transaction decides next, then the first operation whose metadata cannot be recorded, each cause with its own refusal |
| Receipts.CohortAnswers | database.clj:1178-1218 | a cohort is refused exactly when the database is not ready and published exactly when its frames are recorded; then the log gains exactly its frames and every mutation is answered as it would be alone on the root the ones before it leave, receipts included; otherwise it is ambiguous and the database is fenced |
| CohortWitness.DeepCohortIsAmbiguous | database.clj:1178-1218 | on every healthy uncompressed database a cohort of a shallow assertion and one too deep to encode makes the first, durably and in memory, and reports it ambiguous, though alone it is reported committed |
| GroupCommit.OpenIsSafeIff | database.clj:475-500 | opening gives the replay of the log's frames, and a database fit for writing exactly when repair loses no compression flag |
| Database.WriteFrames | database.clj:427-435 | the stream holds exactly the leading frames that can be encoded |
| Database.LogFile.AppendDurable | database.clj:420-435 | the file gains the octets the fault lets through, and reports success only when all arrived |
| Database.Database.FenceAndReconcile | database.clj:1068-1111 | the object's new state is the reconciled one |
| Database.Database.Commit | database.clj:1126-1176 | result and new state are those of the commit step, whatever the append does |
| Database.Database.CommitCohort | database.clj:1178-1218 | result and new state are those of the cohort step; the root is published only after the append |
| Database.Database.AcquireLease | database.clj:1319-1338 | result and new state are those of the lease event: refused as it is decided, or whatever the commit of its request gives |
| Database.Database.RenewLease | database.clj:1340-1354 | result and new state are those of the lease event |
| Database.Database.ReleaseLease | database.clj:1356-1364 | result and new state are those of the lease event |
| Leases.CurrentLease | database.clj:1297-1317 | the lease found is effective and on the resource, and none found means none is effective |
| Withdrawals.WithdrawDecides | database.clj:1235-1261 | an occurrence can be withdrawn exactly when it is an assertion, readers see it and no later live occurrence says the same; each other case has its own refusal |
| Withdrawals.WithdrawTakesExactly | database.clj:1235-1261 | committed, a withdrawal takes back that very occurrence and leaves every other as live as it was |
| LeaseSafety.LeaseSafeUnderFrame | database.clj:1235-1270 | a frame that replaces only recorded occurrences, and rivals whenever it grants, keeps the lease invariant |
| LeaseSafety.LastEqualIsTop | database.clj:1235-1261 | the newest live equal occurrence a reader finds is the one a retraction withdraws |
| LeaseSafety.WithdrawalIsExact | database.clj:1235-1261 | withdrawing takes that occurrence and leaves every other one as live as it was |
| LeaseFencing.OneLeaseAResource | database.clj:1313-1317 | a resource has at most one effective lease |
| LeaseFencing.GrantTakesEffect | database.clj:1319-1354 | a grant is effective under an epoch newer than everything recorded and ends exactly the lease it replaces |
| LeaseFencing.AcquireSucceedsIff | database.clj:1319-1338 | an acquisition is granted exactly when its time to live is positive, the lease can be written, and every effective lease on the resource has expired |
| LeaseFencing.RenewSucceedsIff | database.clj:1340-1354 | a renewal is granted exactly when its fence is valid and the new lease can be written |
| LeaseFencing.FenceValidIff | database.clj:1366-1370 | a fence is valid exactly when its epoch names an unexpired effective lease of that holder on the resource |
| LeaseFencing.ReplayedIsSequenced | out/fram/store.clj:410-427 | every replayed history meets what the two conditions above ask of a store |
| LeaseFencing.ReleaseSucceeds | database.clj:1356-1364 | releasing the current epoch is never refused on a database open for writing |
| LeaseFencing.ReleaseTakesEffect | database.clj:1356-1364 | a release withdraws exactly the current lease and leaves the resource without one |
| LeaseFencing.OrdinaryKeepsLeases | database.clj:1126-1176 | a commit that touches no lease or supersession leaves every lease as effective as it was |
| LeaseAnswers.AcquireAnswers | database.clj:1319-1338 | an acquisition is refused for its time to live, then for a lease in force, and otherwise commits exactly when the database is open for writing and the lease can be recorded |
| LeaseAnswers.RenewAnswers | database.clj:1340-1353 | a renewal is refused exactly when its fence is not valid, and otherwise commits under the same condition |
| LeaseAnswers.ReleaseAnswers | database.clj:1355-1364 | a release is refused exactly when the epoch is not the holder's current one, otherwise commits under the same condition, and its receipt reports one withdrawal, that of the epoch |
| LeaseRuns.CommitIsAllOrNothing | database.clj:1126-1176 | a commit leaves memory as it was or with exactly its frame, whatever becomes of the append |
| LeaseRuns.CohortIsAStretch | database.clj:1178-1218 | whatever becomes of its append, a cohort leaves memory where a leading stretch of its mutations would: none is ever half there |
| LeaseRuns.EveryLeaseRunIsSafe | database.clj:1178-1370 | over every run of single mutations and cohorts, leases and ordinary changes mixed, with appends failing anywhere, the lease invariant and the log invariant hold and every mutation is made in order, in full or not at all |
| LeaseRuns.CreatedRunsAreSafe | database.clj:386-418 | so from a database as created, in memory or durable, a resource never has two effective leases |
| LeaseRuns.GrantIsExclusive | database.clj:1319-1354 | a committed grant names the epoch now current, newer than all recorded, and no other holder's lease was in force |
| LeaseRuns.EpochsNeverReturn | database.clj:1366-1370 | an epoch that was replaced or released is never effective again in any run |
| LeaseRuns.StaleFenceIsRefused | database.clj:1366-1370 | so its fence is refused for good, at any time and for any holder |
| LeaseRuns.UnexpiredLeaseHolds | database.clj:1319-1370 | until it expires, a lease survives every run, cohorts included, in which its own holder does not end it |
| ForkCrash.ForkSurvivesCrashesIff | database.clj:698-719 | completing after any number of crashes at any steps gives the files of an uninterrupted run exactly when the child is not named like the parent's pending files |
| ForkCrash.ClashLosesChild | database.clj:698-719 | with that name, a crash after the child's reference is installed loses it |
| ForkCrash.Resume | database.clj:694-719 | stopping after any number of idempotent steps and starting over is never having stopped |
| ForkCrash.RefusedUntilComplete | database.clj:469-473 | until the last step no branch of the store opens |
| ForkWitnesses.CrashLosesChild | database.clj:733-823 | a new store forks `main` into `main.fork-new`, and a crash after four file steps loses the child |
| ForkWitnesses.ForkedTailEndsCorrupt | database.clj:1068-1111 | once a branch has forked, the first append that fails on the child leaves it corrupt, however many octets arrive |
| ForkWitnesses.NewForkEndsCorrupt | database.clj:1068-1111 | a new store, one fork, one failed assertion: corrupt |
| ForkFiles.AfterPreparation | database.clj:800-813 | what every path holds once the fork is prepared |
| ForkOutcome.OtherBranchKeptIff | database.clj:701-719 | a third branch keeps its reference and tail exactly when its name is none the fork uses for its own files |
| ForkOutcome.OtherBranchOpens | database.clj:636-689 | such a branch opens on the same database as before |
| ForkOutcome.ReservedBranchLost | database.clj:701-719 | a third branch with one of those names loses its reference or its tail |
| ForkHistory.ForkOpensIff | database.clj:733-823 | after a fork parent and child both open, on exactly the parent's history over fresh tails, if and only if their names are apart, the reference reads back and a first segment starts at sequence 1 |
| ForkHistory.SealedFitIff | out/fram/branch.clj:247-274 | adding the sealed tail keeps the chain well formed exactly when it follows the segments before it |
| ForkHistory.RefReadsIff | database.clj:775-799 | the reference of a planned fork reads back exactly when its space id fits a line and the new segment's counts have at most 18 digits: the segments before it need no check |
| BranchTextRoundTrip.RefRoundTripIff | out/fram/branch.clj:168-207 | a printed reference parses back as the document it prints exactly when its space id fits a line and its segments are at most 64, named by distinct digests, numbered with at most 18 digits, and none ends before it begins |
| BranchTextRoundTrip.MarkerRoundTripIff | out/fram/branch.clj:218-236 | a printed fork marker parses back exactly when it names two different usable branches and a digest |
| BranchTextParsing.UsableNameIff | out/fram/branch.clj:86-88 | which branch names are usable, by length and character codes |
| BranchTextParsing.LineEnds | out/fram/branch.clj:188-189 | a line ends at a newline and loses one carriage return before it |
| BranchTextParsing.RefParsesIff | out/fram/branch.clj:177-207 | a text parses as a reference exactly when its lines are the format, its space, the printed line of each of at most 64 readable records with different digests, each perhaps with spaces after it, and the checksum of all before |
| BranchTextParsing.RefRefusedBecause | out/fram/branch.clj:188-207 | any other text is refused for its version exactly when it has three lines and another format, and as malformed otherwise |
| BranchTextParsing.MarkerParsesIff | out/fram/branch.clj:222-236 | a text parses as a fork marker exactly when its five lines are the format, two different usable names, a digest and the checksum of the four |
| BranchTextParsing.MarkerRefusedBecause | out/fram/branch.clj:222-236 | which texts are refused for their version and which as malformed |
| BranchTextParsing.HexIsHex | out/fram/branch.clj:171-173 | a checksum is printed in lower-case hex with its leading zeros |
| ForkRetry.ForkRetries | database.clj:733-823 | calling the fork again after crashes anywhere leaves, when its names are free, exactly the files of one uninterrupted call; the retry answers with the same plan if no attempt reached its marker, and otherwise completes the fork and says the branch exists |
| ForkVolume.Volume.Complete | database.clj:698-719 | the renames and deletions leave the files of the step list, and nothing changes when there is no tail to seal |
| ForkVolume.Volume.Prepare | database.clj:800-813 | every pending file is there before the marker is |
| ForkAcceptance.PlannedIff | database.clj:733-823 | a fork is accepted exactly when both names are usable and differ, the child has neither tail nor reference, the parent is main or has a reference that parses, its tail reads clean in that space and is a continuation exactly when segments precede it, fewer than 64 do, and its digest names none of them |
| ForkAcceptance.ForkSucceedsIff | database.clj:733-823 | a call succeeds exactly when the files allow it once any interrupted fork has been completed; it then leaves that fork complete, refused it changes nothing else, and an unreadable marker stops it |
| ForkAcceptance.RefusedBecause | database.clj:733-823 | which cause gives which refusal, each as far as the causes before it do not hold |
| ForkAcceptance.ForksAgainIff | out/fram/branch.clj:239-245 | after a fork, parent and child can each be forked again into any free usable name, exactly while fewer than 64 segments are sealed and the fresh tail is not the content of one of them |
| ForkAcceptance.UntouchedForksOnce | database.clj:733-823 | a branch whose tail is still the one a fork left is refused, and so is its child |
| ForkAcceptance.NewStoreForksTwice | database.clj:733-823 | a new store forks main into one child and then, with nothing committed between, into another |
| BranchOpening.BranchOpensIff | database.clj:636-691 | a branch opens exactly when no fork is pending, its name is usable and its files allow it: each file of the chain reads, is of the reference's space, is a continuation unless it is the first, is what was recorded, and starts at the sequence after the last frame before it, and all the frames together replay |
| BranchOpening.BranchOpensAs | database.clj:636-691 | it opens on the frames of its segments and its tail in that order, writes to its tail, and repair cuts exactly what is torn off that tail |
| History.PrefixReadsUpTo | database.clj:353-372 | for rising sequences the bounded octets read clean as exactly the frames up to the bound, and the reported sequence is the last of them |
| History.FirstTransactionAfter | out/fram/store.clj:484-489 | halving finds the boundary: every earlier transaction is at or below the sequence, every later one above |
| History.TransactionFramesBetween | out/fram/store.clj:500-506 | the frames returned are exactly what the upper bound adds to the lower |
| Checkpoints.DumpRestores | out/fram/store.clj:699-730 | dumping a replayed store and restoring the dump gives that very store, its stacks and withdrawal targets rebuilt |
| Checkpoints.AcceptedIsReplay | server.clj:735-747 | whatever has become of the log since a checkpoint was written, it is accepted exactly when its binding is that of the present prefix, and its root is then the replay of the present frames up to its version |
| Checkpoints.StillAccepted | server.clj:735-747 | a log that was repaired, appended to, or both, still accepts it |
| Checkpoints.WriteKeepsGenuine | server.clj:749-766 | writing and pruning leave a directory of files each written from the log of its time |
| Checkpoints.LossKeepsGenuine | server.clj:749-753 | so does losing or damaging any of them |
| Checkpoints.LoadedIsReplay | server.clj:735-747 | what such a directory offers first is the replay of the present frames up to some version within the bound |
| Checkpoints.ReplayedRoot | server.clj:924-942 | the root at a version is the replay of every frame up to it, whatever checkpoints such a directory holds, and is refused exactly outside the history |
| CheckpointFiles.RestoresIff | out/fram/store.clj:617-729 | a dump restores exactly when it is that of frames committed in rising order from 0 in this space, and then to their store |
| CheckpointFiles.ReplaysIff | out/fram/store.clj:650-657 | such a dump is of a store a log can give exactly when it is empty or starts at 1 or later |
| CheckpointFiles.AcceptedIff | server.clj:735-747 | a file is accepted as a root exactly when it is whole, bound to the very octets of the log that read as the frames up to the version, and restores to that root, ending where they end |
| CheckpointFiles.NewestIsOffered | server.clj:735-747 | the root offered is that of the newest acceptable file up to the version, and none is offered exactly when none is acceptable |
| CheckpointFiles.WrittenExactly | server.clj:755-766 | a file is written exactly at positive multiples of the interval for a version the log vouches for |
| CheckpointFiles.KeepsNewestFour | server.clj:749-753 | pruning keeps the four newest files, or all |
| CheckpointFiles.WrittenIsOffered | server.clj:735-766 | a root that was due is offered for its version once written |
| Preflight.ShortcutAgrees | server.clj:468-477 | the all-assert shortcut gives the operations and decisions of the general walk |
| Preflight.PreparedByTheWalk | server.clj:468-477 | with the shortcut or without, what is prepared is what the walk over the effective propositions prepares, and nothing exactly when that misses a subject |
| Preflight.PreflightIsExactIff | server.clj:449-477 | every action list is decided as the commit will turn out exactly when no live occurrence is superseded |
| Preflight.ReplacedIsMispredicted | server.clj:449-477 | two commits, the second superseding the first, leave a triple whose retraction is predicted to change nothing and withdraws it |
| Preflight.SubjectPolicyIsExactIff | server.clj:445-466 | a request is refused for its subjects exactly when an action asks for one that would not be live after committing the actions before it |
| Preflight.PreflightSimulatesCommit | server.clj:449-466 | then the simulated list is what is live after the commit |
| Preflight.RowFollowsSimulation | server.clj:437-466 | one committed row moves the live list as one simulated action moves its copy, and withdraws something exactly when the simulation says it changes something |
| Preflight.PredictedAreCommitted | server.clj:479-485 | a receipt names the transaction and the coordinates predicted before the commit, and counts the rows the commit added |
| SlotIndex.FindIsExact | out/fram/store.clj:166-176 | a slot lookup finds the position of a row, and fails exactly when the row is absent, whatever the hash |
| SlotIndex.AppendKeepsIndexed | out/fram/store.clj:178-192 | adding a new row keeps every row reachable, through the doubling of the slots too |
| SlotIndex.NewIsSized | out/fram/store.clj:53-62 | a new index has the fewest slots, doubling from 64, for the rows expected at four a slot |
| SlotIndex.AppendKeepsLoad | out/fram/store.clj:178-192 | adding a row keeps at most four rows for each slot, doubling the slots exactly when that would be exceeded |
| SlotIndex.ForeignPositionsAreHarmless | out/fram/store.clj:127-128 | positions a forked store adds to shared slot cells change no lookup |
| Interned.HandlesAreInverse | server.clj:1063-1100 | looking a term up and resolving a handle undo each other on every table without repeats, so a stored term has one handle |
| Interned.LoadedIsIndexed | out/fram/store.clj:699-730 | a loaded dump whose rows refer only to earlier ones is indexed, repeats and all |
| Interned.EachIsFoundIff | server.clj:1063-1100 | on any indexed table every handle is found again from its term exactly when no row is stored twice |
| Interned.InternMeets | out/fram/store.clj:206-224 | on any indexed table, interned or loaded, interning only adds rows, keeps them in order, findable and without repeats if there were none, and returns a handle that names the term |
| Interned.InternKnown | out/fram/store.clj:206-224 | interning a stored term stores nothing and finds its handle |
| Interned.ResolveIsStable | out/fram/store.clj:229-232 | a handle keeps its meaning in every later table |
| Interned.Interner.Store | out/fram/store.clj:206-224 | the cells end as the interned table, earlier handles keep their meaning and the result names the term |
| InternedLog.SetPositionsIsUpdate | out/fram/store.clj:318-347 | setting one bucket's stack changes that handle's stack alone, through any rehash |
| InternedLog.FoldKeepsPositions | out/fram/store.clj:349-383 | opening and closing a fold change no stack, and leave it open and closed |
| InternedLog.OperationMirrors | out/fram/store.clj:385-396 | one row applied by handle keeps the interned store equal, stack for stack, to the store over terms |
| InternedLog.ReplayMirrors | out/fram/store.clj:410-427 | so does any replayed history |
| FastPath.CandidatesAreExact | server.clj:1134-1157 | all three branches give exactly the handles of live triples that agree with the pattern's constants |
| FastPath.MatchRowIsExact | server.clj:1159-1172 | matching finds the one set of bindings of exactly the pattern's variables under which it reads as the row, repeated variables included, or none |
| FastPath.FastPathKeepsMeaning | server.clj:1181-1198 | a row is served exactly when it is the head grounded by a match of some live triple |
| FastPath.ServesEveryHistory | server.clj:1181-1198 | that holds after every replayed history and for every hash function |
| FastPath.FoldingServesNothing | server.clj:1102-1112 | while a fold is open every bucket looks empty and nothing is served |
| RowOrder.RowKeyIsExact | out/fram/query.clj:553-579 | no two rows share a row key |
| RowOrder.SortByKeySorts | server.clj:1198 | sorting by row key keeps exactly the rows and puts them in strictly ascending order |
| RowOrder.OneOrder | out/fram/query.clj:577-579 | rows in strictly ascending order of their keys are determined by which rows they are |
| ServedOrder.ServedInKeyOrder | server.clj:1181-1198 | the vector served holds exactly the answers, once each, in strictly ascending order of their row keys, so a cursor by row finds its place |
| ServedOrder.ServedFollowsLive | server.clj:1181-1198 | it is a function of the live propositions alone: the hashes, the history and the order of the host's sets change nothing |
| ServedOrder.HistoriesServeAlike | server.clj:1181-1198 | so two histories that leave the same propositions live are answered with the same vector |
| Sequencer.TakeCohort | server.clj:1873-1888 | a cohort starts with its first ticket, follows the queue, holds at most 32 tickets and at most 1 MiB unless it is one ticket, hands back a stop or an overflowing ticket, and otherwise ends only when full or when a poll finds the queue empty |
| Sequencer.Sequencer.Run | server.clj:1921-1942 | whatever arrives, every cohort is within bounds and each ticket taken is answered once and in queue order; once stopped, everything queued by then is answered up to the first poll that finds the queue empty, also when a ticket was held over |
| Sequencer.Sequencer.DeliverCohort | server.clj:1894-1919 | each ticket of the cohort gets one answer, in order, all failed or none |
| ResultCache.RetainKeeps | server.clj:1366-1372 | retaining keeps the lists exact and the bounds met, and counts a weight twice exactly when the key was already retained |
| ResultCache.EnforceBoundsBounds | server.clj:1345-1364 | evicting restores at most 8 entries a snapshot, 4 snapshots and 64 MiB (exactly which entries go is `CacheEviction.LandsExactly`) |
| ResultCache.TouchKeeps | server.clj:1322-1327 | a hit reorders the lists and nothing else |
| ResultCache.TrimToBytes | server.clj:1360-1364 | the eviction loop drops the oldest entries until the weight fits |
| ResultCache.Cell.Complete | server.clj:1393-1402 | a finished build is retained within bounds if its generation is current, and dropped otherwise |
| CacheEviction.TouchIsRecent | server.clj:1322-1327 | a hit makes its key and its snapshot the most recently used and moves nothing else |
| CacheEviction.LandsExactly | server.clj:1345-1402 | a build that lands on its own generation is made the most recently used, and the cache then keeps exactly the keys of the four snapshots used last that are among the eight of their snapshot used last, less the shortest prefix of the oldest that brings the weight within its limit |
| CacheEviction.EvictionsAreCounted | server.clj:1329-1402 | a build that lands counts exactly the entries dropped as evictions, and is neither a hit nor a miss |
| CacheEviction.JustBuiltIsHit | server.clj:1322-1402 | the build just landed is hit by the next reader whenever its weight fits beside what the byte count is ahead by |
| CacheRuns.AccessIsTransparent | server.clj:1374-1440 | in every interleaving a hit, and every delivered wait, gives the rows its key's build computes, with the lists exact and the bounds met |
| CacheRuns.HitIsRecent | server.clj:1374-1391 | in every run a hit makes its key and its snapshot the most recently used, is counted, and changes nothing else |
| CacheRuns.QuietRunsAreExact | server.clj:1374-1402 | if no generation is dropped under a build of its own, a key has at most one build in flight and the byte count is exact |
| CacheRuns.CompletionIsExactIff | server.clj:1366-1402 | the byte count stays exact exactly when the build does not land on a retained key |
| CacheRuns.RunIsExactIff | server.clj:1366-1402 | over a whole run the byte count is exact at the end exactly when every build that landed on a retained key was followed by a drop of the caches |
| CacheRuns.DroppedUnderABuild | server.clj:245-251 | a drop under a build, a second build, and both landing make the count wrong |
| CacheRuns.UnlockedDropRefines | server.clj:245-251 | with the drop's write falling anywhere between the reads and writes of the locked accesses, the cells hold what the whole steps make of them once the overwritten drops are left out |
| CacheRuns.LostDropRetainsNothing | server.clj:245-254 | a drop overwritten by a locked access leaves the old generation in place, and no build of another generation is retained until the next drop |
| Paging.PagesPartitionRows | server.clj:1554-1583 | following cursors ends, numbers the pages in order, fills every page but the last, gives each of those the cursor that stops after its last row with the snapshot's version and digest, reports done on the last alone, and together the pages are the row list |
| Paging.PageRefusedIff | server.clj:1554-1583 | a cursor is refused exactly when a number in it is negative or, with a limit from 1 to 4096, it is of another query or its row is not where it says; a limit exactly when it is out of that range and the cursor's numbers are not negative |
| Rotations.IndexFollowsList | rotations.clj:43-86 | after any additions and deletions the index covers exactly the listed occurrences, with no empty bucket |
| Rotations.MatchingIsWhere | rotations.clj:96-107 | for each of the eight bound and unbound shapes the chosen bucket is the filter of the whole list, in order |
| Rotations.IndexRefinesFilter | rotations.clj:43-107 | so every pattern after any history of changes gives exactly the listed occurrences it fits |
| NativeHeap.GenerationReleaseCounted | native/server_generated.c:319-332 | a release gives up one hold and frees exactly what nobody holds any more, with every other count still exact |
| NativeHeap.GenerationCreateCounted | native/server_generated.c:283-317 | creating a generation takes one hold on its owner and one on its parent |
| NativeHeap.SwapCounted | native/server_generated.c:1363-1369 | publishing moves the operation's hold to the store and hands back the hold on the generation before |
| NativeHeap.NothingLeaks | native/server_generated.c:1395-1440 | with no store and no requests left, no owner and no generation is allocated |
| NativeHeap.ChainIsLive | native/server_generated.c:283-332 | nothing reachable from a live generation has been freed |
| NativeStorage.WriteVectorMeaning | native/server_generated.c:628-674 | a chunked append succeeds exactly when every word is an octet and all of them fit, and otherwise leaves a proper prefix |
| NativeStorage.Storage.AppendVector | native/server_generated.c:628-674 | the chunk loop leaves the storage as that append |
| NativeStorage.WritesWholeChunks | native/server_generated.c:628-674 | an append leaves exactly the chunks of 8192 before the one with the first word that is no octet, as far as they fit |
| NativeStorage.LimitsAre | native/server_generated.c:207-247 | the limits without a budget, the bounds of those a budget implies, and what they are between their bounds |
| NativeStorage.LimitsRise | native/server_generated.c:207-247 | a larger budget never lowers a limit |
| NativeServer.Server.Open | native/server_generated.c:1054-1131 | boot succeeds exactly when neither allocation fails, the engine accepts the log, a torn tail can be cut off, what the engine adds fits and the sync succeeds; the log is then the whole frames with that added, and the state published is its fold |
| NativeServer.Server.Dispatch | native/server_generated.c:1279-1393 | exactly which failures refuse a request, leaving the log as it was; otherwise a changed answer is appended and synced before its state is published, the log gaining exactly its octets; a failed append or sync keeps the old generation and refuses every later dispatch; the published state stays the fold of the log |
| NativeServer.Server.Compact | native/server_generated.c:969-998 | compaction succeeds exactly when neither allocation fails and the log boots whole with nothing to add; it leaves a chain of one with the same state, or changes nothing |
| NativeServer.Server.CompactIdle | native/server_generated.c:1006-1034 | idle compaction is tried exactly when generations have piled up on a store that is not poisoned, and succeeds and changes things as compaction does |
| NativeServer.Server.Shutdown | native/server_generated.c:1395-1440 | the chain is given up, and with no requests left nothing stays allocated |
| NativeServer.Server.Run | native/server_generated.c:249-1440 | any calls in any order, any of them failing, keep every count exact, the chain within its bound and the state the fold of the log |
| Clients.TableIsLiveJobs | native/server_host.c:989-1210 | in every interleaving the table is exactly the live jobs, counted once each and within the limit, and no descriptor is closed twice |
| Clients.StopWaitsForAll | native/server_host.c:1022-1038 | when stopping returns no worker can touch the server again |
| Clients.EveryDescriptorClosedOnce | native/server_host.c:1001-1210 | at the end every accepted descriptor has been closed exactly once, on every path |
| Clients.NeverStuck | native/server_host.c:1001-1210 | no interleaving deadlocks and no wakeup is lost |
| Clients.StoppingEnds | native/server_host.c:1022-1038 | once stopping begins, at most 28 steps for each descriptor accepted, and three more, change anything in any interleaving, and a state nothing changes any further is finished |
| Clients.ChangesCount | native/server_host.c:1022-1038 | the steps so counted are exactly those after which the state is another |
| Admission.AcceptedIff | native/server_host.c:1040-1160 | a connection is taken whenever the acceptor polls, unless a fatal failure is already known |
| Admission.AdmittedIff | native/server_host.c:1163-1174 | in every run a descriptor that reaches the table lock is linked exactly while fewer than the limit of jobs are live, and refused exactly when all places are taken |
| Admission.ServedIff | native/server_host.c:1175-1210 | once linked it becomes a serving worker when the thread is created, and is turned away when not |
| Admission.HeldBecomes | native/server_host.c:1105-1145 | a connection held is dropped, turned away as the server stops, or goes on to the table lock; one turned away has been closed once and for all |
| Admission.RefusedIsClosed | native/server_host.c:1163-1200 | a refused connection has been closed once and for all and is in no table, and the acceptor polls again unless thread creation is gone for good |
| Admission.OutOfPlaceChangesNothing | native/server_host.c:1040-1210 | in every run an event out of its place changes nothing, and what needs the table lock waits for it |
| Admission.ClosedUnservedBecause | native/server_host.c:1040-1210 | in every interleaving a descriptor closed without a worker was dropped, came as the server was stopping, found no thread, or was refused while exactly the limit of jobs were live |
| Admission.FirstClientIsServed | native/server_host.c:1040-1210 | with room for one, the first client to come is served |
| Admission.FatalIsKnown | native/server_host.c:989-1020 | a fatal failure is known exactly from the close of the worker it happened to, for good |
| Admission.QuietCompactsOnce | native/server_host.c:1078-1095 | polls with nobody connected compact once, at the twentieth in a row, if a client was admitted since the last time, and otherwise never |
| Admission.BusyPollStartsOver | native/server_host.c:1078-1095 | after a poll that finds somebody connected nothing is compacted until twenty more quiet polls, whatever happens between them |
| OwnedBlockRoundTrip.UnsetUndoesSetIff | bin/fram-code-wire-toml.py:87-141 | unset after set restores the very bytes exactly when the last line was not an unfinished begin marker and the file was not an empty one |
| OwnedBlockRoundTrip.UnfinishedMarkerIsCompleted | bin/fram-code-wire-toml.py:87-141 | the file of one unfinished begin marker is taken for a file without a block and does not come back, and an empty file is deleted |
| OwnedBlockRoundTrip.SetReplacesSetIff | bin/fram-code-wire-toml.py:102-119 | setting twice is setting once with the second server, exactly when the last line was not an unfinished begin marker |
| OwnedBlockRoundTrip.TrailingTextSurvives | bin/fram-code-wire-toml.py:102-127 | text added after the block that holds no marker survives set and unset untouched |
| OwnedBlockRoundTrip.SpanIsBlock | bin/fram-code-wire-toml.py:52-71 | the span found around an added block is exactly the block with its separator |
| OwnedBlockText.RenderSays | bin/fram-code-wire-toml.py:27-40 | line by line the text written is the table, the command, the arguments separated by commas and, if there is any environment, its table and a line for each key |
| OwnedBlockText.OwnedIff | bin/fram-code-wire-toml.py:52-71 | a block is found exactly where one begin marker in all, one end marker after it and the newlines it records bound it |
| OwnedBlockText.AbsentIff | bin/fram-code-wire-toml.py:52-57 | a file has no block exactly when no line is a begin marker |
| OwnedBlockText.RefusedIff | bin/fram-code-wire-toml.py:98-127 | set is refused exactly when the markers bound no block or an unmarked line is the table header, unset exactly when the markers bound no block |
| OwnedBlockText.SeparatorIsFewest | bin/fram-code-wire-toml.py:74-79 | the separator is the fewest newlines that leave an empty line before the block |
| OwnedBlockText.SetWrites | bin/fram-code-wire-toml.py:98-119 | a set that is not refused leaves everything around the block as it was and writes, between the markers, text that says the server |
| OwnedBlockText.UnsetLeaves | bin/fram-code-wire-toml.py:120-134 | an unset takes out exactly the block, leaves a file without one alone, and deletes a file with nothing else |

## Left out

- Float atoms: the host's equality on NaN and signed zero breaks identity (`README.md:33-38` of Fram).
- CRC-32, GZIP, SHA-256 and UTF-8 validation: abstract functions; GZIP is assumed only to invert itself.
- Segment identity: a sealed segment is assumed to collide with no other file of the same digest (`NoCollision`).
- BranchTextRoundTrip.RefRoundTripIff: the octets of the two text files are taken to be valid UTF-8, and the checksum line is an abstract CRC-32.
- Limits on term nodes and on sequences near 2^63: codec lengths and depths are modelled, those two are not.
- InternedLog.ReplayMirrors: its tables are built by interning; after loading a dump with repeated rows equal terms may have several handles (`Interned.EachIsFoundIff`), and what replaying on top of it does is not modelled.
- FastPath.FastPathKeepsMeaning: the planner's checks before the fast path is taken are not modelled.
- RowOrder.RowKeyIsExact: how the host spells UTF-8 in UTF-16 is any encoding that loses nothing.
- Checkpoints.ReplayedRoot: the image's byte format is not part of this model: a file is whole or fails its checksum; SHA-256 is taken to be free of collisions.
- NativeServer.Server.Dispatch: that the published state is the fold of the log is conditional on an engine whose every state change is what it appends; the engine itself is generated code and is a parameter.
- Sequencer.Sequencer.Run: the loop's interrupt path, and the time a poll waits, are left to what arrives.
- CacheRuns.AccessIsTransparent: cancellation and deadlines of a waiting reader are not modelled; the page-snapshot and text-index caches dropped with this one are not either.
- OwnedBlockRoundTrip.UnsetUndoesSetIff: `json.dumps` is any function whose text is printable ASCII in quotes, and environment keys are taken without line breaks.
- Clients.NeverStuck: signals, polling and the sockets themselves are the order of steps; a worker's service is one step that may fail.
- Paging.PagesPartitionRows: the three page shapes are rows named by themselves or by position; decoding a cursor from a request is not modelled.
- `supersede!`, branch revisions, view selection, archive manifests, the text index cache, request statistics and writer locks: branch-by-branch checks or plumbing.
- The Datalog evaluator, aggregates, text search, the code graph, the command line and the wrappers around the native store.
