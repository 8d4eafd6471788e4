# sqld verified: replication, backup, streams and results

A Dafny model of the parts of sqld that move a database around, with proofs of what they
promise. All members below are stated for all inputs, all runs or all reachable states; where
the code does not keep a promise on all of them, the exact condition is proved and a failing
case is given.

**Replication.** `Frames` gives frames and databases their meaning: replaying a log gives a page
map and a size. `LogFile` is the shadow log of the primary and its file, `LogSwap` the hand-over of
a full log to the compactor at the level of files, `Snapshot` builds and merges
page-deduplicated snapshots that are stored newest first, `Primary` is the primary with its
writer, compactor and merger threads as a state machine, `MergeAccounts` what the merger knows,
`FrameStream` the polled stream of frames, `Replica` the injector, `Replication` the whole system
with one replica, `Restart` a replica started again over its database, and `WriteProxy` a
connection that writes through the primary. `Fork` copies a database while the primary goes on
working.

**Backup.** `PageFile` and `TransactionCache` are the database file and the page cache that
spills to disk. `Wal` is the frame format and the checksum of sections 4.1 and 4.2 of the SQLite
Database File Format. `ObjectNames` and `Generations` print, parse and order the names in the
bucket. `Bottomless` cuts a log into objects, `Restore` replays objects, `BackupRestore` puts the
two together, and `RestoreStack` restores a database from several generations. `WalLayout` writes
headers field by field, and `FieldRestore` says what all of this means for the pages that SQLite
wrote.

**Streams of the HTTP API.** `StreamTable` is the table of streams with its two queues, its timer
and its guards; `Batons` is the codec of batons, with numbers written as in `BigEndian`.

**Results.** `Programs` has batches and their conditions, `Execution` runs a program against a
result builder, `Json` has JSON values with a printer and an independent reader (RFC 8259),
`JsonPayload` is the streaming JSON builder, and `SqlEscape` writes text values into a dump.
`Basics` has what all modules use.

What the proofs found out about the code:

- A merge of a single snapshot writes its output under the name of its input and then removes
  it: the frames are kept if and only if a merge has at least two inputs
  (`Primary.MergeKeepsFrames`), and a run of two transactions, a compaction and a merge loses
  frames for good (`Primary.SingleMergeLosesFrames`). The other promises of the primary hold on
  every run in which compactions do not overlap.
- A compaction may start while another is under way, since only the hand-over waits. No log is
  damaged by that (`LogSwap.NothingIsLost`), but the compactor then removes the newer log in place
  of its own and exits when it finds nothing more to remove, and from then on every full log is
  lost (`LogSwap.OverlapLosesFrames`). After a compaction starts, the compactor goes on if and only
  if it was waiting for one (`LogSwap.SafeToCompact`).
- The header of a snapshot or a batch is scanned from frame number 0, so frame 0 alone never
  counts as the end of a transaction (`Snapshot.SizeAfterCompaction`,
  `Snapshot.FirstFrameLosesItsSize`, `Replica.HeaderIsLargest`). The replica stays correct, but it
  has applied everything it was given if and only if that is more than frame 0
  (`Replica.WholeHistoryApplied`, `Replication.ReplicaCatchesUp`).
- A connection that writes through the primary is let go at once while the replica has applied
  nothing (`Replication.FirstReadMayMissWrites`); otherwise it waits for one frame more than it
  needs (`Replication.WaitsForOneMoreFrame`), because the announced number is one past the last
  frame; it can wait until somebody commits something else (`Replication.ReaderMayWaitInVain`).
- A replica that is started again asks for the whole history again, since its watch starts without
  the stored frame number, and writes it over the database it has: its readers go back in time
  (`Restart.RestartGoesBack`). Over any number of restarts they see the primary as it was after the
  last transaction applied, if and only if no page within the size of that database was written by
  an earlier process and not since (`Restart.ReadersSeeTransactions`); this is always so if
  transactions have written all pages up to their size. A page that a transaction leaves unwritten
  can show through and give a state that the primary never had (`Restart.RestartShowsMixture`).
- The rolling checksum of the log does not run on over a compaction, although the header says so:
  the check of the first frames afterwards passes if and only if the log was opened again in
  between or the last checksum was the one that the new file was opened with, which is 0 as a rule
  (`LogFile.CompactionCutsChecksums`, `LogFile.SecondLogFailsCheck`). The check is
  `compute_checksum` (`sqld/src/replication/primary/logger.rs:864-880`), which nothing calls, so no
  log is refused.
- A text value with a NUL character does not come back from a dump, because SQLite stops reading
  there; all others do (`SqlEscape.Fmt`, `SqlEscape.NulIsCutOff`).
- The condition `Cond::Err` is true for a skipped step (`Programs.SkippedStepCountsAsError`),
  unlike the repository's own description of the Hrana protocol; the two agree if and only if the
  step ran (`Programs.ErrorIsAsDocumented`). The model follows the code.

The proofs hide definitions they do not need with `hide`; helper lemmas are not listed below.

## Model

| member | source | states |
|---|---|---|
| LogFile.LogFile.constructor | sqld/src/replication/primary/logger.rs:358-393 | a new log is empty and starts at frame 0, and its file has that header |
| LogFile.LogFile.Open | sqld/src/replication/primary/logger.rs:358-423 | opening fails if and only if the header is cut, the magic number is wrong or the last committed frame is missing; a log opened from a sound file holds its committed frames, has its identity and goes on with its checksums; a new file gets a new identity |
| LogFile.CrashIsRollback | sqld/src/replication/primary/logger.rs:358-437 | whatever a log has been through, its file is sound and holds exactly the committed frames, so a crash is a rollback |
| LogFile.LogFile.PushPage | sqld/src/replication/primary/logger.rs:477-507 | the page becomes a pending frame with the next number and the next checksum; committed frames stay, also where slots of rolled-back frames are overwritten |
| LogFile.LogFile.WritePages | sqld/src/replication/primary/logger.rs:855-863 | all pages of a call become pending frames in order |
| LogFile.LogFile.Commit | sqld/src/replication/primary/logger.rs:425-432 | exactly the pending frames and checksums become committed, and the file says so |
| LogFile.LogFile.Rollback | sqld/src/replication/primary/logger.rs:434-437 | exactly the pending frames and checksums are forgotten; the file stays as it is |
| LogFile.LogFile.ReadFrame | sqld/src/replication/primary/logger.rs:535-547 | below the log: a snapshot is required; at or past the committed end: ahead; else the committed frame with that number |
| LogFile.LogFile.RevFrames | sqld/src/replication/primary/logger.rs:461-475 | the committed frames backwards, no pending one |
| LogFile.LogFile.ComputeChecksum | sqld/src/replication/primary/logger.rs:864-879 | the check of the committed frames passes if and only if their checksums chain from the one in the header, that is, if and only if the first frame was computed from it or there is none |
| LogFile.LogFile.DoCompaction | sqld/src/replication/primary/logger.rs:572-602 | fails and changes nothing if and only if the temporary file cannot be opened; else the old log keeps all its frames, and the new one is empty, starts right after them and has the last checksum and the identity in its header, while its running checksum is the one that the temporary file was opened with |
| LogFile.CompactionCutsChecksums | sqld/src/replication/primary/logger.rs:586-595 | frames written after a compaction pass the check if and only if the log was opened again in between or its last checksum was the one that the new file was opened with |
| LogFile.SecondLogFailsCheck | sqld/src/replication/primary/logger.rs:864-880 | a failing case: two logs of one page each, the second of which fails the check |
| LogFile.LogFile.Recover | sqld/src/replication/primary/logger.rs:809-848 | a log rebuilt from a data file holds its pages in order, as one committed transaction |
| LogFile.RecoveredReplays | sqld/src/replication/primary/logger.rs:809-848 | replaying a rebuilt log gives exactly the pages and the size of the data file; only its last frame has a size |
| LogFile.RollbackLeavesNoTrace | sqld/src/replication/primary/logger.rs:302-311 | any writes followed by a rollback cannot be told apart from none in what is committed later |
| Snapshot.DedupIsSnapshot | sqld/src/replication/snapshot.rs:401-432 | deduplicating any list that covers a range newest first gives exactly the newest frame of every page of the range |
| Snapshot.ResumeAnywhere | sqld/src/replication/snapshot.rs:146-161 | for every snapshot and every frame number in it: the pages before that frame, with the snapshot read from it applied newest first, are the pages after replaying all frames of the range in order |
| Snapshot.FirstIsEnd | sqld/src/replication/snapshot.rs:401-432 | the newest frame of the range comes first in a snapshot |
| Snapshot.SizeAfterCompaction | sqld/src/replication/snapshot.rs:419-422 | the header of a compacted range has the size after its last frame if and only if that is not frame 0 or frame 0 has no size |
| Snapshot.FirstFrameLosesItsSize | sqld/src/replication/snapshot.rs:419-422 | a log of one committed frame is compacted to a file without a size |
| Snapshot.SizeAfterMerge | sqld/src/replication/snapshot.rs:311-337 | the same condition for merged files |
| Snapshot.SnapshotBuilder.constructor | sqld/src/replication/snapshot.rs:377-399 | a builder that has taken no frame |
| Snapshot.SnapshotBuilder.AppendFrame | sqld/src/replication/snapshot.rs:411-429 | the decreasing-order assertion holds if and only if the frame is below the last one; then the builder stands for one frame more |
| Snapshot.SnapshotBuilder.AppendFrames | sqld/src/replication/snapshot.rs:401-432 | the assertion fires if and only if the frames do not descend; otherwise all are taken |
| Snapshot.SnapshotBuilder.Finish | sqld/src/replication/snapshot.rs:435-449 | the file of the frames taken, newest of each page, named after the first and the last one, unless a merge has set the name |
| Snapshot.PerformCompaction | sqld/src/replication/snapshot.rs:452-460 | the file made of the frames, or the panic if and only if they do not descend |
| Snapshot.CompactionIsFaithful | sqld/src/replication/snapshot.rs:452-460 | compacting a range of the history never panics and gives a file with its name and exactly its snapshot |
| Snapshot.MergeSnapshots | sqld/src/replication/snapshot.rs:311-337 | fails if and only if an input is missing or listed twice or the frames do not descend; else the directory gets the merged file and loses the inputs |
| Snapshot.MergeIsFaithful | sqld/src/replication/snapshot.rs:311-337 | merging adjacent truthful snapshots never panics and gives a truthful snapshot of the joined range |
| Snapshot.MergeIsCompaction | sqld/src/replication/snapshot.rs:311-337 | the merged file is, byte for byte, what one compaction of the whole range would have made; so nesting merges does not matter |
| Snapshot.SnapshotIsUnique | sqld/src/replication/snapshot.rs:401-432 | a range has one snapshot |
| Primary.BasePreserved | sqld/src/replication/primary/logger.rs:535-602 | every step of writer, compactor and merger keeps: the log continues the history, files tell the truth, snapshot ranges are nonempty, sorted and adjacent up to the log |
| Primary.SnapshotsTellTheTruth | sqld/src/replication/snapshot.rs:95-112 | in every run every snapshot file is a snapshot of the history, so resuming at any of its frames is exact |
| Primary.PrimaryIsSafe | sqld/src/replication/snapshot.rs:262-278 | in every run whose merges have at least two inputs every committed frame is in the log, in the log being compacted or in a snapshot on disk, also between persisting a merged file and removing its inputs |
| Primary.EveryFrameCovered | sqld/src/replication/snapshot.rs:95-112 | the invariant gives a source for every committed frame number |
| Primary.StepPreserves | sqld/src/replication/snapshot.rs:311-337 | every step keeps that the files of the chain are on disk, when merges have several inputs |
| Primary.CompactorNeverPanics | sqld/src/replication/primary/logger.rs:895-917 | in every run the last committed frame of a log about to be compacted has a size, so the assertion at line 913 holds, and the frames handed to the builder descend, so its assertion (`sqld/src/replication/snapshot.rs:411-414`) holds |
| Primary.MergerNeverPanics | sqld/src/replication/snapshot.rs:311-337 | as long as merges have several inputs the merger finds its inputs and their frames descend |
| Primary.MergeKeepsFrames | sqld/src/replication/snapshot.rs:324-334 | carrying a merge through keeps every frame readable if and only if it has at least two inputs |
| Primary.MergeDecision | sqld/src/replication/snapshot.rs:256-278 | a merge starts if and only if the snapshots hold at least twice as many frames as the database has pages, or are more than 32 |
| Primary.SnapshotsStayFew | sqld/src/replication/snapshot.rs:262-278 | in every run at most 32 snapshots stay, and at most 33 are merged |
| MergeAccounts.AlwaysAccounts | sqld/src/replication/snapshot.rs:256-278 | in every run the merger knows of every snapshot the number of different pages written in its range, and is told the size of the database after it |
| MergeAccounts.MergesWhenWorthIt | sqld/src/replication/snapshot.rs:256-278 | in every run a merge starts if and only if the snapshots hold at least twice as many page versions as the database has pages after the last of them, or are more than 32 |
| Primary.SingleMergeLosesFrames | sqld/src/replication/snapshot.rs:256-278 | a concrete run from an empty log, with two transactions, a compaction and a merge of one snapshot, after which frame 0 can be read nowhere |
| Primary.SnapshotTurnsUp | sqld/src/namespace/fork.rs:97-107 | a frame that has left the log is in a snapshot, or is as soon as the compactor has written the one it is building |
| LogSwap.StepKeeps | sqld/src/replication/primary/logger.rs:572-602 | every step of writer and compactor keeps the invariant of the files, also when a new log is put into the file that the compactor still reads |
| LogSwap.NothingIsLost | sqld/src/replication/snapshot.rs:174-222 | in every run, also with overlapping compactions, as long as every log is taken: the snapshots hold the history up to the log being read or waiting, in order, and the open files hold the rest |
| LogSwap.SafeToCompact | sqld/src/replication/snapshot.rs:174-233 | from any state that compactions one at a time lead to: whatever follows, one at a time, the compactor does not exit, nothing is lost and the renaming does not panic, if and only if the compactor was waiting when the compaction started |
| LogSwap.OverlapEnds | sqld/src/replication/snapshot.rs:206-212 | from every such state with a compaction under way, a second one leads to the exit of the compactor |
| LogSwap.NextLogIsLost | sqld/src/replication/snapshot.rs:227-233 | once the compactor has exited, the frames of the next log are in no snapshot and no open file |
| LogSwap.OverlapLosesFrames | sqld/src/replication/snapshot.rs:174-233 | a concrete run from an empty log, with three transactions and two overlapping compactions, that loses the third transaction |
| FrameStream.LogStream.constructor | sqld/src/replication/primary/frame_stream.rs:28-50 | a stream at its offset that has handed out nothing |
| FrameStream.LogStream.TransitionStateNextFrame | sqld/src/replication/primary/frame_stream.rs:52-76 | closes at the maximum number of frames, else starts a read at the current frame |
| FrameStream.LogStream.CompleteRead | sqld/src/replication/primary/frame_stream.rs:63-75 | the read returns what the log says at that moment |
| FrameStream.LogStream.PollNext | sqld/src/replication/primary/frame_stream.rs:90-152 | fails at once if and only if the logger is closed; else a poll is a sequence of steps of the stream, yields exactly the frame it adds to the output, and is pending only while a read runs or nothing new was announced; it ends a stream only at the maximum number of frames or, unless it is to wait for more, at the end of the log |
| FrameStream.StreamPreserves | sqld/src/replication/primary/frame_stream.rs:90-152 | every step keeps the invariant of the stream |
| FrameStream.SleepsAtTheEnd | sqld/src/replication/primary/frame_stream.rs:121-146 | a waiting stream at the end of the log goes to sleep if and only if nothing was announced since it last looked |
| FrameStream.WakesUp | sqld/src/replication/primary/frame_stream.rs:102-112 | after a wake-up a stream has seen the announcement and reads, unless it has reached its maximum |
| FrameStream.PrimaryKeepsStream | sqld/src/replication/primary/logger.rs:425-437 | every step of the primary keeps the invariant of every stream |
| FrameStream.StreamIsFaithful | sqld/src/replication/primary/frame_stream.rs:52-152 | under any interleaving the frames handed out are the committed frames from the offset on, in order, without gaps, no more than asked for; only a stream that waits for more sleeps, and then it has missed no announced frame; a stream that ended needs a snapshot because the next frame has left the log, or has reached its maximum, or does not wait and has handed out all frames committed when it was opened; any other can step |
| Replica.HeaderIsLargest | sqld/src/replication/replica/hook.rs:193-240 | the header of a batch has the number and size of its largest frame, except that frame 0 carries no size |
| Replica.MakePageHeader | sqld/src/replication/replica/hook.rs:193-240 | the pages in order and the header of the batch |
| Replica.InjectorHookCtx.constructor | sqld/src/replication/replica/hook.rs:86-98 | an injector over a database, empty or not, that has applied nothing |
| Replica.InjectorHookCtx.Append | sqld/src/replication/replica/hook.rs:114-123 | the open transaction gets the pages of the frames in order |
| Replica.InjectorHookCtx.InjectPages | sqld/src/replication/replica/hook.rs:100-137 | the batch joins the open transaction, and ends it if its largest frame does; if the original call fails the transaction stays open and nothing counts as applied; the assertion in `post_commit` never fires |
| Replica.InjectRange | sqld/src/replication/replica/hook.rs:100-183 | injecting the frames of a range keeps the invariant of the injector, for whole and partial transactions |
| Replica.WholeHistoryApplied | sqld/src/replication/replica/hook.rs:193-240 | a replica that was given a whole history has applied it if and only if it is longer than one frame |
| Replica.SnapshotInjectsRange | sqld/src/replication/replica/replicator.rs:270-286 | injecting a snapshot read from a frame has the effect of injecting all frames from there on |
| Replication.Replicate | sqld/src/replication/replica/replicator.rs:228-286 | the loop buffers frames, hands over a batch at each commit or when the buffer is full, drops the buffer for a snapshot, and fails exactly at an error of the stream, bytes that are no frame, or a failing request for a snapshot |
| Replication.LoopTakesFrames | sqld/src/replication/replica/replicator.rs:240-253 | the loop does what the steps of the system do, frame by frame, whatever follows |
| Replication.LoopLoadsSnapshot | sqld/src/replication/replica/replicator.rs:254-264 | a demand for a snapshot does what taking the frames before it and loading the snapshot do; what follows meets an empty buffer |
| Replication.FlushesWhen | sqld/src/replication/replica/replicator.rs:229-253 | frames are handed over at the end of a transaction, and else when 2442 have come |
| Replication.BufferIsBounded | sqld/src/replication/replica/replicator.rs:229-253 | in every run at most 2441 frames of an unfinished transaction are buffered |
| Replication.ActionPreserves | sqld/src/replication/replica/replicator.rs:228-296 | every action of primary, stream and replica keeps the invariant of the system |
| Replication.ReplicaFollowsPrimary | sqld/src/replication/replica/replicator.rs:76-107 | in every run, with partial batches, dropped streams and snapshot loads, the last frame given to `post_commit` ends a transaction and the replica is the primary's history replayed up to it |
| Replication.ReplicaNeverGoesBack | sqld/src/replication/replica/replicator.rs:288-295 | the committed database of a replica only moves forward in the primary's history, as long as the replica is not started again |
| Replication.ReplicaCatchesUp | sqld/src/replication/replica/replicator.rs:228-268 | in every run a replica that was given all committed frames has applied all if and only if there is more than frame 0, and is then equal to the primary |
| Restart.RestartedReplica | sqld/src/replication/replica/replicator.rs:48-124 | in every run, over any number of restarts: the database is the history up to where each process has come, written one over the other |
| Restart.ShowsHistory | sqld/src/replication/replica/replicator.rs:288-295 | such a database shows its readers, who see no page above its size, the history up to the last position if and only if every page within that size that is written up to an earlier position is written up to the last one |
| Restart.ReadersSeeTransactions | sqld/src/replication/replica/replicator.rs:48-124 | in every run, over any number of restarts, readers see the primary after the last transaction applied if and only if that condition holds; it does once the replica has caught up, and always if transactions have written all pages up to their size |
| Restart.RestartGoesBack | sqld/src/replication/replica/replicator.rs:48-70 | a concrete run in which a replica shows two transactions, is started again and shows only the first |
| Restart.RestartShowsMixture | sqld/src/replication/replica/replicator.rs:48-70 | a concrete run in which a replica that is started again shows what no transaction of the primary has left |
| WriteProxy.WriteProxyConnection.UpdateLastWriteFrameNo | sqld/src/connection/write_proxy.rs:239-244 | covers the new number and never decreases once set |
| WriteProxy.WriteProxyConnection.WaitReplicationSync | sqld/src/connection/write_proxy.rs:247-266 | returns at the first applied number that covers the last write, and fails if and only if there is none |
| Replication.ReadsOwnWrites | sqld/src/connection/write_proxy.rs:247-266 | a connection that is let go sees all frames announced with its last write if and only if the replica has applied a batch or none was announced |
| Replication.FirstReadMayMissWrites | sqld/src/connection/write_proxy.rs:247-266 | a concrete run from an empty log, in which a connection writes, gets its answer and is let go before its write has arrived |
| Replication.WaitsForOneMoreFrame | sqld/src/replication/primary/logger.rs:693-695 | in every run, when all frames of the last write are applied, the reader is let go if and only if a later frame is applied, too |
| Replication.WaitsUntilNextCommit | sqld/src/connection/write_proxy.rs:247-266 | a reader that waits for everything committed is let go in no continuation of the run without another commit |
| Replication.ReaderMayWaitInVain | sqld/src/connection/write_proxy.rs:247-266 | a concrete run into such a state, with everything applied |
| Replication.WaitIsTheLoop | sqld/src/connection/write_proxy.rs:247-266 | the states in which a reader is let go are those in which the value it watches covers its last write |
| Fork.WriteSnapshot | sqld/src/namespace/fork.rs:109-114 | writes all frames of a snapshot and goes on after its newest one |
| Fork.TryFork | sqld/src/namespace/fork.rs:77-122 | whatever the primary does meanwhile, the data file is always the replay of the frames below the next one; the fork ends at a transaction boundary at or past the frames announced at the start, unless reading fails, a snapshot never turns up or the frames outnumber the looks at the log |
| TransactionCache.TransactionPageCache.constructor | bottomless/src/transaction_cache.rs:20-27 | an empty cache in memory |
| TransactionCache.TransactionPageCache.Insert | bottomless/src/transaction_cache.rs:29-59 | the cache stands for the old pages with the new one, however many pages fit and however a swap fails; it moves to disk if and only if a new page comes to more than the allowed number and the swap succeeds; the spill file keeps one aligned slot per page |
| TransactionCache.TransactionPageCache.Persist | bottomless/src/transaction_cache.rs:61-83 | the same for a cache on disk: a known page is overwritten in its slot, a new one appended |
| TransactionCache.TransactionPageCache.Swap | bottomless/src/transaction_cache.rs:85-127 | a swap does not change what the cache stands for; it succeeds if and only if the file opens and all pages are written |
| TransactionCache.TransactionPageCache.Flush | bottomless/src/transaction_cache.rs:129-154 | the file with the last version of every page laid over it |
| Wal.ChecksumBe | bottomless/src/wal.rs:244-256 | the loop computes the checksum of section 4.2 of the SQLite Database File Format over little-endian words, the order in which the code reads them: their sums weighted with Fibonacci numbers, in 32 bits |
| Wal.ChecksumIsFibonacci | bottomless/src/wal.rs:244-256 | the same of the checksum as a function, for every start and all bytes |
| Wal.ChecksumFromZero | bottomless/src/wal.rs:244-256 | from a start of zero, exactly the weighted sums of the words |
| Wal.WeightedAt | bottomless/src/wal.rs:244-256 | word i of n counts Fib(n - 1 - i) times in the first half and Fib(n - i) times in the second |
| Wal.ChecksumConcat | bottomless/src/wal.rs:244-256 | checksums chain over pieces of whole blocks |
| Wal.DetectsBlockCorruption | bottomless/src/wal.rs:244-256 | changing one eight-byte block changes the checksum |
| Wal.Verify | bottomless/src/wal.rs:47-62 | accepts exactly the frames whose checksum follows from the last one, and returns it |
| Wal.VerifyRejectsCorruption | bottomless/src/wal.rs:47-62 | a frame with one changed block is rejected |
| WalLayout.FieldsBack | bottomless/src/wal.rs:10-45 | reading the 24 bytes of a header gives back the page number, the size and the checksum that were written to it |
| WalLayout.EveryFrame | bottomless/src/wal.rs:64-74 | every 24 bytes are the header of some fields |
| WalLayout.WalHeaderBack | bottomless/src/wal.rs:106-118 | reading the 32 bytes in front of a log gives back its page size and its checksum |
| WalLayout.FrameChecksum | bottomless/src/wal.rs:47-62 | a frame is accepted if and only if its checksum is the weighted sum over its page number, its size and its page, started from the frame before |
| BigEndian.BigEndianOrder | bottomless/src/wal.rs:22-45 | numbers are ordered as their bytes are |
| Wal.CopyFrames | bottomless/src/wal.rs:155-209 | reading from the offset of a frame gives exactly the frames from it on |
| Wal.DecodeEncode | bottomless/src/read.rs:39-56 | reading a body gives back the frames that were written |
| Wal.DecodeCut | bottomless/src/read.rs:39-56 | of a body that ends early all whole frames are read; the rest is an error if and only if it has a whole header |
| ObjectNames.KeyParses | bottomless/src/replicator.rs:943-959 | the name of an object parses back to its fields, for every directory |
| ObjectNames.KeyLayout | bottomless/src/backup.rs:92-105 | the parts of a name: directory, two numbers of twelve digits, timestamp, kind of compression |
| ObjectNames.DotIsBehind | bottomless/src/replicator.rs:943-959 | when both frame numbers of a name parse, its last dot is behind its last dash, so cutting out the timestamp never panics |
| ObjectNames.ParsesExactly | bottomless/src/replicator.rs:943-959 | a field parses if and only if it is a numeral in range, perhaps after a plus sign, and then to its value |
| ObjectNames.KeysInFrameOrder | bottomless/src/backup.rs:92-105 | names of a directory are listed in the order of their first frames, both directions, for all `u32` |
| Generations.EncodeUnixTimestampMillis | bottomless/src/uuid_utils.rs:10-29 | 16 bytes of version 7 and variant 2 |
| Generations.DecodeEncodeMillis | bottomless/src/uuid_utils.rs:38-52 | an id tells the milliseconds it was made from, whatever its random bytes |
| Generations.RandomBitsDecide | bottomless/src/uuid_utils.rs:10-29 | two ids of a millisecond are the same if and only if all 74 random bits are |
| Generations.TextLayout | bottomless/src/replicator.rs:494-509 | the text of an id: 36 characters with four dashes, the digits of each byte in their place |
| Generations.GenerationTellsTime | bottomless/src/replicator.rs:504-516 | a generation decodes to the second and the millisecond it was made in |
| Generations.NewestFirst | bottomless/src/replicator.rs:494-509 | a later millisecond gives a name that is listed earlier, whatever the random bytes and whatever follows in the name |
| Bottomless.Flush | bottomless/src/backup.rs:46-135 | the objects hold the frames of consecutive ranges, all but the last of the maximum size, named with the clock at each, up to the end unless a name could not be sent; the metadata are written if and only if frame 1 is flushed, with page size and checksum from the header of the log |
| Bottomless.MetadataBack | bottomless/src/backup.rs:67-89 | a restore reads the page size and checksum that the backup wrote |
| Bottomless.MetadataIsNoRange | bottomless/src/replicator.rs:1203-1222 | the metadata are never taken for frames |
| Bottomless.CopyBatch | bottomless/src/backup.rs:106-119 | the body holds exactly the frames of the batch |
| Bottomless.ConsecutiveJoin | bottomless/src/backup.rs:46-135 | flushing range after range is flushing one longer range |
| Bottomless.OverlayIsWriting | bottomless/src/replicator.rs:1262-1274 | overlaying the last version of every page is writing the frames one by one |
| PageFile.GapsAreZero | bottomless/src/transaction_cache.rs:129-154 | pages that nobody has written are zeros |
| Restore.Restorer.constructor | bottomless/src/replicator.rs:1197-1202 | nothing taken yet |
| Restore.Restorer.Take | bottomless/src/replicator.rs:1255-1277 | a frame is taken if and only if its checksum follows, or checksums are not verified; the file always holds exactly the complete transactions taken |
| Restore.RestoreObject | bottomless/src/replicator.rs:1250-1278 | an object is replayed to its end, to a cut page or to the first bad checksum |
| Restore.GoodIsLongest | bottomless/src/replicator.rs:1259-1261 | the frames that a restore takes are the longest prefix whose checksums chain, or all when they are not verified |
| Restore.RestoreWal | bottomless/src/replicator.rs:1166-1290 | for any listing and any bytes in it: the file gets exactly the complete transactions among the frames before the first bad one; success if and only if all were read; reports whether any transaction was applied |
| BackupRestore.RestoreReadsBackup | bottomless/src/replicator.rs:1203-1253 | from a listing in name order that holds flushed batches among other objects, a restore reads exactly the accepted prefix of the frames |
| BackupRestore.LostObjectStops | bottomless/src/replicator.rs:1224-1249 | when objects are missing, exactly the accepted frames before the gap are read |
| BackupRestore.AcceptedBounds | bottomless/src/replicator.rs:1224-1249 | without a limit in the way all frames are accepted |
| BackupRestore.RestoreBackup | bottomless/src/replicator.rs:1166-1290 | backup, then restore, gives the base file with exactly the complete transactions of the accepted frames; it succeeds if and only if checksums are off or chain |
| FieldRestore.RestoreFields | bottomless/src/replicator.rs:1166-1290 | the same for frames given by page number, size, checksum and page: batches up to the first beyond the limits are accepted, frames up to the first whose checksum is not the weighted sum are taken, and the file gets the last version of every page up to the last frame with a size and nothing of the frames after it |
| FieldRestore.RecoveredFields | bottomless/src/replicator.rs:1262-1274 | recovering frames writes the last version of each page up to the last frame with a size |
| FieldRestore.ChainedFields | bottomless/src/wal.rs:47-62 | a chain of frames verifies if and only if every checksum is the weighted sum started from the one before |
| FieldRestore.AcceptedPart | bottomless/src/replicator.rs:1232-1249 | the accepted batches are those up to the first that is beyond the last consistent frame or too late |
| RestoreStack.OneLineage | bottomless/src/replicator.rs:1005-1031 | a generation has at most one complete lineage of generations to restore from |
| RestoreStack.FindStack | bottomless/src/replicator.rs:1005-1031 | finds the lineage up to the nearest main file or to the first generation; fails if and only if 101 generations have no main file |
| RestoreStack.SetPageSize | bottomless/src/replicator.rs:462-475 | fails if and only if another page size was set before |
| RestoreStack.RestoreFrom | bottomless/src/replicator.rs:1038-1063 | succeeds if and only if all page sizes agree, all objects can be read and no verified checksum is bad; then the database is the main file with the complete transactions of one generation after another, the oldest first, only the newest limited to its last consistent frame |
| RestoreStack.RestoreOne | bottomless/src/replicator.rs:1040-1062 | one generation of the stack; one without metadata changes nothing |
| RestoreStack.FramesOfBackup | bottomless/src/replicator.rs:1038-1063 | the frames of a backed-up generation are those that were flushed, up to the limits |
| FieldRestore.Contributes | bottomless/src/replicator.rs:1042-1049 | an older generation contributes all its flushed frames, the newest one the batches up to the first whose last frame is beyond its last consistent frame |
| FieldRestore.StackOfBackups | bottomless/src/replicator.rs:1038-1063 | a stack of backed-up generations is restored to the main file with all flushed transactions of the older generations, one after another, and then those of the newest one up to that batch |
| StreamTable.RoundupInstant | sqld/src/hrana/http/stream.rs:398-404 | the next whole second after the instant |
| StreamTable.Guard.CloseDb | sqld/src/hrana/http/stream.rs:194-197 | closes the connection and leaves the table valid |
| StreamTable.ServerStreamState.constructor | sqld/src/hrana/http/stream.rs:90-101 | an empty table, with a pump owed |
| StreamTable.ServerStreamState.AcquireExisting | sqld/src/hrana/http/stream.rs:105-149 | a baton is accepted if and only if its stream is available and it is the last one issued; the stream comes back as it was released, with the next number; every refusal changes nothing |
| StreamTable.ServerStreamState.GenStreamId | sqld/src/hrana/http/stream.rs:252-260 | the first free of ten random ids; panics if and only if none is |
| StreamTable.ServerStreamState.AcquireNew | sqld/src/hrana/http/stream.rs:150-179 | a new stream under a free id, held by its guard |
| StreamTable.ServerStreamState.Release | sqld/src/hrana/http/stream.rs:207-222 | a baton and an available stream if the connection is open, else the stream goes |
| StreamTable.ServerStreamState.DropIsSafe | sqld/src/hrana/http/stream.rs:225-240 | in every reachable state both panics of the destructor are out of reach |
| StreamTable.ServerStreamState.Drop | sqld/src/hrana/http/stream.rs:225-250 | the stream goes back or away, and only it |
| StreamTable.ServerStreamState.MarkExpire | sqld/src/hrana/http/stream.rs:326-334 | the expiry is more than 10 and at most 11 seconds away, and no expiry is lost: the waker is gone and a pump owed, or the timer fires in time |
| StreamTable.ServerStreamState.NoExpiryIsLost | sqld/src/hrana/http/stream.rs:318-396 | in every reachable state the waker slot is empty, or the timer fires no later than any queued expiry; each lies more than 10 and at most 11 seconds after the release |
| StreamTable.ServerStreamState.PumpExpire | sqld/src/hrana/http/stream.rs:350-396 | exactly the due streams are expired and exactly those due for cleanup removed; nothing due remains in either queue; the timer fires at the next expiry, or in 60 seconds if there is none; queues and handles agree afterwards |
| StreamTable.ServerStreamState.ExpireDue | sqld/src/hrana/http/stream.rs:353-377 | every queued stream is available, and each due one gets one cleanup more than 300 and at most 301 seconds away |
| StreamTable.ServerStreamState.CleanDue | sqld/src/hrana/http/stream.rs:379-390 | every stream cleaned up was expired, so the assertion holds |
| StreamTable.BatonAcceptedOnce | sqld/src/hrana/http/stream.rs:129-148 | two acquisitions accept the same baton if and only if a multiple of 2^64 acquisitions lies between |
| Batons.DecodesExactlyItsOwn | sqld/src/hrana/http/stream.rs:262-316 | given a MAC and a one-to-one base64: a text decodes to a stream and number if and only if it is the baton encoded for them |
| Batons.BatonsDiffer | sqld/src/hrana/http/stream.rs:262-287 | different streams or numbers have different batons |
| SqlEscape.FindUnusedStr | sqld/src/connection/dump/exporter.rs:404-421 | ends, with the first of the tokens that does not occur; a number above the length of the text is never tried |
| SqlEscape.FewNumbers | sqld/src/connection/dump/exporter.rs:413-420 | numbered tokens that all occur need distinct places |
| SqlEscape.ReplaceUndoes | sqld/src/connection/dump/exporter.rs:336-351 | replacing a token that the text did not have undoes exactly that token, although tokens and text may touch |
| SqlEscape.EvalWrapped | sqld/src/connection/dump/exporter.rs:310-372 | evaluating the literal inside the nested calls gives the text |
| SqlEscape.WriteBody | sqld/src/connection/dump/exporter.rs:324-362 | the loop writes the text with line breaks and quotes spelled out |
| SqlEscape.Fmt | sqld/src/connection/dump/exporter.rs:289-377 | for every text: the output evaluates as SQL to the text, whatever follows, and has no line break; what SQLite reads of it evaluates to the text if and only if the text has no NUL character |
| SqlEscape.NulIsCutOff | sqld/src/connection/dump/exporter.rs:289-300 | a text that does not come back |
| Programs.EvalDecides | sqld/src/connection/libsql.rs:469-487 | evaluation fails if and only if a step is mentioned that has not run, else it is the boolean meaning |
| Programs.ErrorIsAsDocumented | sqld/src/connection/libsql.rs:469-477 | for every program and every earlier step: the condition that it failed has its documented meaning, ran and failed, if and only if the step ran |
| Programs.ConditionIsAsDocumented | sqld/src/connection/libsql.rs:469-487 | a condition of any depth that asks for the failure of no skipped step has its documented meaning |
| Programs.SkippedStepCountsAsError | sqld/src/connection/libsql.rs:477 | a concrete program of which a step runs because another was skipped, not failed |
| Programs.ConversionIsFaithful | sqld/src/hrana/batch.rs:30-82 | a condition is accepted if and only if it is complete, in range and supported by the version; then it means what the client said, at any depth |
| Programs.ProtoBatchToProgram | sqld/src/hrana/batch.rs:84-103 | accepts exactly the batches whose steps convert, and gives a program that mentions only earlier steps and means the same |
| Programs.NeverInvalidStep | sqld/src/connection/libsql.rs:289-298 | such a program never refers to a step that has not run |
| Programs.MakeBatchProgram | sqld/src/connection/mod.rs:110-124 | each query after the first depends on the one before |
| Programs.BatchOrRollback | sqld/src/connection/mod.rs:38-61 | the batch followed by a `ROLLBACK` that depends on the last query not being successful; nothing for an empty batch |
| Programs.BatchRuns | sqld/src/connection/mod.rs:110-124 | a query of a batch runs if and only if all earlier ones succeeded |
| Programs.RollbackRuns | sqld/src/connection/mod.rs:47-61 | the rollback runs if and only if some query failed |
| Execution.RunAccepted | sqld/src/query_result_builder.rs:528-543 | for every program and all outcomes of its queries the transition table accepts the calls |
| Execution.TableIsPhases | sqld/src/query_result_builder.rs:528-543 | the transition table accepts exactly the traces that follow the phases of a builder: steps, columns, rows, values, errors |
| Execution.StepsReport | sqld/src/connection/libsql.rs:327-344 | every step reports at its end the changes and the row id of its query if it ran and succeeded, else none |
| Execution.ExecuteQuery | sqld/src/connection/libsql.rs:349-410 | the calls of the query, cut at the first builder error |
| Execution.ExecuteStep | sqld/src/connection/libsql.rs:310-347 | the calls of the step; whether it ran and succeeded; the only panic is a builder error about a bad condition |
| Execution.Run | sqld/src/connection/libsql.rs:289-308 | all calls of the run, cut at the first builder error, accepted by the table; the results of the steps; no panic for a program in scope |
| Execution.Take.constructor | sqld/src/query_result_builder.rs:125-134 | nothing forwarded yet |
| Execution.Take.Forward | sqld/src/query_result_builder.rs:393-489 | the inner builder has got exactly the calls of the first steps |
| Execution.TakeIsARunOfTheFirstSteps | sqld/src/connection/mod.rs:63-70 | behind a `Take` of n steps a run looks like a run of the first n steps alone: the rollback never shows |
| Json.ReadPrint | sqld/src/query_result_builder.rs:137-218 | every JSON value, printed as the builder prints it, is read back as itself, whatever follows |
| Json.ReadQuoted | sqld/src/http/result_builder.rs:139-147 | every text, with its quotes and escapes, is read back as itself |
| Json.IntegerIsNumber | sqld/src/http/result_builder.rs:139-147 | every integer is printed as a JSON number |
| Json.IntegerBack | sqld/src/http/result_builder.rs:139-147 | the text of an integer, read as a number, is that integer |
| JsonPayload.DecodedScalar | sqld/src/http/result_builder.rs:117-149 | every column value is read back from its JSON value; numbers that are not finite as null |
| JsonPayload.FinishedIsJson | sqld/src/http/result_builder.rs:294-302 | the text of a finished document reads as the array of its elements |
| JsonPayload.CallWrites | sqld/src/http/result_builder.rs:154-302 | what each call appends, and what it takes back |
| JsonPayload.JsonHttpPayloadBuilder.constructor | sqld/src/http/result_builder.rs:102-115 | a builder that has to be initialised |
| JsonPayload.JsonHttpPayloadBuilder.Init | sqld/src/http/result_builder.rs:154-165 | starts over with the given limit |
| JsonPayload.JsonHttpPayloadBuilder.BeginStep | sqld/src/http/result_builder.rs:167-184 | the buffer holds the text of the document with an open step, if and only if its bytes in UTF-8 fit the limit |
| JsonPayload.JsonHttpPayloadBuilder.FinishStep | sqld/src/http/result_builder.rs:186-207 | the step becomes a null, an error object, or columns and rows |
| JsonPayload.JsonHttpPayloadBuilder.StepError | sqld/src/http/result_builder.rs:209-219 | whatever the step wrote is taken back for the error |
| JsonPayload.JsonHttpPayloadBuilder.ColsDescription | sqld/src/http/result_builder.rs:221-236 | the columns are in the text; the assertion holds |
| JsonPayload.JsonHttpPayloadBuilder.BeginRows | sqld/src/http/result_builder.rs:238-248 | the rows are opened; the assertion holds |
| JsonPayload.JsonHttpPayloadBuilder.BeginRow | sqld/src/http/result_builder.rs:250-259 | a row is opened; the assertion holds |
| JsonPayload.JsonHttpPayloadBuilder.AddRowValue | sqld/src/http/result_builder.rs:261-272 | the value is in the text; the assertion holds |
| JsonPayload.JsonHttpPayloadBuilder.FinishRow | sqld/src/http/result_builder.rs:274-283 | the row is complete; the assertion holds |
| JsonPayload.JsonHttpPayloadBuilder.FinishRows | sqld/src/http/result_builder.rs:285-292 | the rows are complete; the assertion holds |
| JsonPayload.JsonHttpPayloadBuilder.Finish | sqld/src/http/result_builder.rs:294-298 | the buffer is the text of the array of elements |
| JsonPayload.Build | sqld/src/http/result_builder.rs:154-302 | for every accepted trace: the buffer is the text of what the calls report and has no more bytes than the limit; the builder fails if and only if that text outgrows the limit at some call; a finished buffer reads as a JSON array |
| JsonPayload.AfterRun | sqld/src/connection/libsql.rs:289-410 | a run reports one element per step: null if it did not run, the error if it failed, else columns and rows |
| JsonPayload.RunToJson | sqld/src/http/result_builder.rs:154-302 | the payload of a run reads, as a JSON text (section 2 of RFC 8259), as an array with one element for each step, although steps write and take back; a client reads from it that a step did not run, its error, or its columns and rows value by value |
| JsonPayload.ElementReads | sqld/src/connection/libsql.rs:310-410 | the same of one element |
| JsonPayload.CharBack | sqld/src/http/result_builder.rs:64-89 | the bytes of a character in UTF-8 are read back, and are as many as the limit counts |
| JsonPayload.Utf8LenIs | sqld/src/http/result_builder.rs:64-89 | the limit counts the bytes of a text |

## Left out

- SQLite itself, the hooks into its write-ahead log and the SQL parser: writing frames is an
  atomic append that either happens or ends the run; savepoints are assumed not to be undone.
- LogFile.LogFile.Open: the decision to rebuild the log and the checkpoint before it are not
  modelled.
- Crashes of the primary in the middle of a compaction or a merge, and of a replica between
  `pre_commit` and `post_commit`.
- LogSwap: other failures of the compactor's thread, and crashes, are left out.
- The channel between the replica's loop and its injector: a batch is injected before the next
  message is handled.
- Replica.InjectorHookCtx.InjectPages: what SQLite makes of the pages of a failing call is left out.
- Primary: one compaction is finished before the next starts, as `LogSwap` shows to be necessary.
  The threads are steps of a state machine on values; each step is one call of the
  code that changes shared state, and the classes `LogFile` and `SnapshotBuilder` are the same
  operations in place.
- Fork.TryFork: does not model writing the data file, or the removal of a failed fork.
- TransactionCache.TransactionPageCache.Persist: writes to the spill file succeed; in the code a
  failing one ends the restore.
- Object storage: one page of a listing, no failing requests, compression as the identity.
- Restore.RestoreWal: requires a page size that is a multiple of 8, as SQLite's are; page number 0
  wraps around as in an optimised build (a debug build stops there); the frame counter is not
  bounded to 32 bits.
- RestoreStack.RestoreFrom: the stack is given, as `FindStack` finds it; tombstones, comparing with
  a local database, uploading remaining files and finding the last consistent frame are left out.
- The counters of submitted frames and the upload of snapshots.
- Generations.GenerationTellsTime: requires a second up to 253370761200, as the subtraction in
  the code does.
- Batons: the MAC and base64 are functions with the laws stated.
- StreamTable: requests are locked sections; making a database connection, the queued wake-up and
  the fairness of the timer are outside.
- JsonPayload.JsonHttpPayloadBuilder.BeginStep: of a call over the limit it states that the buffer
  keeps a prefix of the text, not which one; the limit over all responses together is not
  modelled. The digits of floating-point numbers and base64 are functions, the former of JSON
  numbers.
- Execution.ExecuteQuery: blocking, statistics and the change counters are in the outcome of the
  query; a row that breaks off is part of it.
- SqlEscape.Fmt: the number in a token is not bounded to 31 bits.
- Authorisation, HTTP, gRPC and WebSocket transport, namespaces, statistics and configuration:
  no hard property.
