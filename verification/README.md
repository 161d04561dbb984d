# The durability engine of `cache`, modelled in Dafny

`cache` is an embedded key-value store. One writer appends every change to a
segmented write-ahead log before applying it to one of several in-memory shards.
A background job writes snapshots shard by shard, without stopping the writer, so
the shards of one snapshot belong to different moments of the log. Entries expire
and are evicted without being logged. When the process dies, `Open` rebuilds the
store from whatever files are left.

The project models that engine and proves that it does what it is for: nothing
acknowledged is lost, nothing that was never written appears, and the files left
by a crash at any moment are accepted.

## How the modules build on each other

| layer | modules |
|---|---|
| vocabulary | `Base`, `Slices`, `Listing`, `Masks` |
| byte formats | `LittleEndian`, `Frames`, `WalCodec`, `RecordBuffer`, `SnapshotCodec`, `SnapshotWriter`, `Names`; `Format` (both formats byte by byte) |
| meaning of a log | `Replay`: plain replay of a history, and filtered replay onto an image |
| recovery | `SegmentRecovery`, `Recovery` (definitions), `RecoveryProgram` (the loops, proved equal to the definitions), `RecoveryCorrectness`; on arbitrary directories `RecoveryProperties`, `Skew`, `Damage` and `SnapshotDamage` (bytes the store did not write), `Gaps` (something missing), `Reopening` (writing after recovery, and recovering again) |
| files over time | `DiskLayout` (what a directory of the store looks like), `DiskSteps` (every change keeps it so), `Pruning` |
| protocol | `Protocol` (26 kinds of step), `ProtocolInvariant`, `Capture`, `ProtocolSteps`, `CrashSafety`; `MemoryView` (what memory shows), `CompactionWindow` (reading next to a running writer), `Sizing` (segment sizes over runs), `Progress` (what is begun can be finished) |
| writer | `Writer`: `writeBatch`, rollover and the latch; `WriterRefinement`: with the shards it fills, it takes only steps of the protocol |
| memory | `Admission` (the check on the way in), `Recency` (a shard as a list, most recent first), `LeastRecent` (that order, over whole runs), `Shard` (map, linked list and counters on the heap), `Accounting` (totals over shards, on values), `ShardLists` (the image the shards show together), `ShardedStore` (several shards on one heap with shared totals) |
| shutdown | `CloseProtocol` |

A history is the list of changes issued; record number `i` carries sequence `i`.
`ReplayTo(h, n)` applies the first `n` of them in order, and every way of
rebuilding a store is compared with it. `Live(m, now)` is what a reader can see of
an image at a time.

The protocol is a state machine over an in-memory image, a directory of bytes and
the history. Its steps are those of the goroutines: a round of records is written,
whole or cut at any byte; a record is put into its shard, published, acknowledged;
a segment is rolled; a shard is captured; an image is renamed into place or
discarded; one old snapshot or one old segment is removed; the durable image is
reconstructed; an entry expires or is evicted, and the eviction is counted in a
second step; the process dies and the directory is reopened with any valid shard
count. They interleave freely, except where a lock or the single snapshot job
forbids it.

## Assumptions

- Only the process dies. Bytes already written stay, a write in flight may be cut
  at any byte, and a rename happens or does not.
- The clock does not go backwards. Images are compared as live views at times no
  earlier than any clock reading so far, since expired entries may already have
  been reclaimed.
- The checksum (CRC32C, section 12.1 of RFC 3720) and the key hash (64-bit FNV-1a)
  are arbitrary functions. No proof depends on which they are.
- A failed or short write can leave complete records that were never acknowledged.
  What is recovered is therefore a prefix of the issued history that contains every
  acknowledged record, not exactly the acknowledged ones.
- File names have the current width of twenty digits, so a directory is a map from
  sequences to bytes. `Names` proves that this is what listing such names gives.

## Two properties that do not hold, and exactly where they do

`recoverDurableImage` takes the snapshot as it is when its highest sequence is the
boundary asked for and no segment starts at or before that boundary
(`cache/recovery.go:146-149`). It does not compare the snapshot's lowest sequence
with its highest, so it may accept an image that lacks records.
`Skew.SkewExample` gives such a directory together with a history it may stand for:
`recoverLog` refuses it, `recoverDurableImage` accepts it, and the image is not the
replay.

`Skew.ReliableIffClosed` says exactly when an accepted reconstruction can be relied
on. For any directory, it is the replay of every history the directory may stand
for, if and only if it did not take a skewed snapshot as it is, or every record past
what the snapshot covers of a key is carried by some entry of the snapshot, so that
it cannot have been about that key. A history a directory may stand for is one on
which the snapshot is exact shard by shard and whose records the segments hold.
`CrashSafety.NoRunSkews` says that no run of the store leads to such a directory.

`recoverLog` does not compare the name of an empty final segment with the sequence it
returns (`cache/recovery.go:338-350` looks at the name only when there is a record). A
directory it accepts may therefore be one it refuses as soon as a record has been
appended. `Reopening.WrongNameExample` gives such a directory.
`Reopening.ReopenAfterWriting` says exactly when: for any accepted directory and any
records appended where recovery left off, the next recovery takes all of them, if and
only if the open segment was not empty or is named for the next sequence.
`Reopening.StoreContinues` says that every directory of a store meets that condition.

ADR 0012 (`cache/docs/adr/0012-corruption-is-graded-and-there-is-no-repair-mode.md:8`)
says that a record too short to be one refuses the open. The code
(`cache/recovery.go:298-308`) trims the final segment at such a length even with records
behind it; the model follows the code, and `Damage.BadLength` says so.

## Model

| member | source | states |
|---|---|---|
| CrashSafety.CrashSafe | cache/recovery.go:49-124 | stop any run after any step and reopen with any valid shard count: recovery accepts the directory, and at every later time its live view is that of plain replay of a prefix of the issued history that contains every acknowledged record |
| CrashSafety.AcknowledgedForever | cache/wal.go:194-206 | an acknowledged record keeps its place in the history through every later step and crash |
| CrashSafety.AcknowledgedIsFound | cache/store.go:233-265 | after a crash at any later point the last acknowledged change of a key is what recovery finds: a `Set` value as long as its deadline is zero or later than now, nothing after a `Delete` |
| CrashSafety.OnlyWritesChangeRecovery | cache/snapshot.go:126-178 | no step but a write changes the recovered sequence or live view: not rolling, capturing, expiring, evicting, installing, pruning or recovery itself |
| MemoryView.MemoryShowsTheLog | cache/entries.go:45-57 | in every reachable state and for every key: memory holds nothing but the key's state in the history through `logSequence` (one record more only while the writer holds the shard with it); it is missing if the key was evicted and neither written nor recovered since, and otherwise only if it has expired |
| MemoryView.KnownAlways | cache/entries.go:127-153 | over every run: an evicted key stays out of memory until its next record or a reopening, every other key is shown up to expiry |
| CrashSafety.InstalledLacksNothing | cache/snapshot.go:157-166 | in every reachable state every installed snapshot can be read, is named for its lowest sequence, and lacks no live entry of the history at its shards' sequences |
| CrashSafety.FinishedIsReadable | cache/snapshot.go:312-353 | in every reachable state a finished image passes all checks of its reader, the entry-sequence check included |
| CrashSafety.NoRunSkews | cache/recovery.go:146-149 | no reachable directory lets reconstruction take a skewed image as it is, for any boundary and shard count |
| CrashSafety.InitInv | cache/store.go:190-199 | a store opened on an empty directory satisfies the invariant |
| CrashSafety.StepInv | cache/wal.go:59-96 | every step of every goroutine keeps the invariant |
| CrashSafety.RunInv | cache/wal.go:59-96 | every state of every run satisfies the invariant |
| CrashSafety.StepKeepsAcknowledged | cache/wal.go:184-206 | no step takes back an acknowledged record |
| ProtocolSteps.StepWrite | cache/wal.go:180-195 | appending a round, or any byte prefix of it followed by the latch, keeps the invariant |
| ProtocolSteps.StepRoll | cache/wal.go:212-227 | installing the next segment keeps the invariant, also when a later error latches the store |
| ProtocolSteps.StepLatch | cache/wal.go:70-77 | latching after a failed fsync or roll keeps the invariant |
| ProtocolSteps.StepApply | cache/entries.go:45-57 | putting the next record into its locked shard keeps the invariant before its sequence is published |
| ProtocolSteps.StepPublish | cache/entries.go:55-56 | publishing the sequence under the same lock keeps the invariant |
| ProtocolSteps.StepEvict | cache/entries.go:117-125 | removing a live entry of a held shard keeps the invariant before it is counted |
| ProtocolSteps.StepCountEviction | cache/entries.go:147-151 | moving the eviction generation keeps the invariant |
| ProtocolSteps.StepExpire | cache/entries.go:32-36 | removing an expired entry at any time keeps the invariant |
| ProtocolSteps.StepCapture | cache/snapshot.go:99-111 | capturing one shard under its read lock, at the sequence published then, keeps every captured shard exact |
| ProtocolSteps.StepFinishCapture | cache/snapshot.go:112-122 | a completed capture becomes an image bound to the eviction generation it started in |
| ProtocolSteps.StepBeginCompaction | cache/snapshot.go:50-62 | rolling past the boundary before reconstructing keeps the invariant |
| ProtocolSteps.CompactionNeverRefused | cache/snapshot.go:180-187 | a compaction that has begun can always read its image back, whatever is written meanwhile, and it is replay through the boundary |
| ProtocolSteps.StepReconstruct | cache/snapshot.go:189-201 | the reconstructed image, listed in any order, is exact at the boundary in every shard |
| ProtocolSteps.StepFinalImage | cache/snapshot.go:203-235 | the image assembled by one reconstruction per shard is exact at the final sequence in every shard |
| ProtocolSteps.StepInstall | cache/snapshot.go:157-166 | the interlock: an image installed while the generation is the one it was taken under lacks no live durable entry, and becomes the newest snapshot |
| ProtocolSteps.StepDropSnapshot | cache/snapshot.go:386-407 | removing any other snapshot keeps the invariant |
| ProtocolSteps.StepDropSegment | cache/snapshot.go:409-423 | removing the oldest segment when the next starts at or before the lowest sequence keeps the invariant |
| ProtocolSteps.StepRestart | cache/store.go:190-199 | a crash in any state: recovery accepts, recovers exactly the durable records, and the reopened store satisfies the invariant |
| Capture.CaptureOne | cache/snapshot.go:99-111 | a shard listed from memory in any order is complete at the published sequence unless an eviction has been counted |
| Capture.WholeImage | cache/snapshot.go:180-201 | one reconstruction gives a complete image with the same sequence in every shard |
| Capture.ShardwiseImage | cache/snapshot.go:203-235 | on the directory of a running store the joined parts are complete at the same sequence in every shard |
| Capture.JoinedPartsAreTheWhole | cache/snapshot.go:216-232 | for arbitrary directories: if every shard can be rebuilt so can the whole, and the parts written one after the other load to exactly the map of one whole reconstruction, each key written once |
| Capture.FinishedIsWellFormed | cache/snapshot.go:245-256 | every finished image can be encoded, with each entry covered by its shard's sequence |
| Capture.FinishedIsNewest | cache/snapshot.go:162-166 | a finished image lies at or above every installed snapshot, so the largest name is the newest |
| ProtocolInvariant.InvBasics | cache/recovery.go:186-213 | the directory always has a last segment to append to |
| DiskSteps.AppendCutOk | cache/wal.go:180-195 | a write cut at any byte leaves an adjacent run of segments with at most a torn tail in the last |
| DiskSteps.RollOk | cache/wal.go:259-298 | a new segment continues the run, also when it replaces an empty one of the same name |
| DiskSteps.InstallDisk | cache/snapshot.go:162-166 | installing a complete image leaves a directory recovery can use |
| DiskSteps.RemoveSnapshotDisk | cache/snapshot.go:386-407 | removing a snapshot that is not the newest leaves a directory recovery can use |
| DiskSteps.RemoveSegmentDisk | cache/snapshot.go:409-423 | pruning leaves an adjacent run that still starts at or before lowest + 1 |
| DiskSteps.TrimDisk | cache/recovery.go:294-308 | trimming the torn tail leaves a directory that stands for exactly the durable records |
| DiskSteps.FreshIsRecovered | cache/recovery.go:59-76 | opening an empty directory installs segment one and recovers nothing |
| Pruning.Files.RemoveOtherSnapshots | cache/snapshot.go:386-407 | removes the listed snapshots in order except the retained one, up to the first removal that fails |
| Pruning.Files.DeleteSegmentsBefore | cache/snapshot.go:409-423 | removes segments in order exactly while the next one starts at or before the lowest sequence, up to the first removal that fails |
| Pruning.Files.CleanUp | cache/snapshot.go:170-175 | wherever the cleanup stops, what is left is a directory of the protocol with the same history; finished, one snapshot is left and no covered segment but possibly the oldest |
| Pruning.AtMostOneCovered | cache/snapshot.go:414-421 | a finished cleanup leaves at most one non-final segment wholly at or below the lowest sequence, the oldest, and removes none that reaches past it |
| Pruning.PruningKeepsInv | cache/snapshot.go:409-423 | after any number of these removals the invariant holds |
| Pruning.RemovingSnapshotsKeepsInv | cache/snapshot.go:386-407 | after any number of snapshot removals the invariant holds |
| RecoveryCorrectness.FuzzySnapshot | cache/recovery.go:353-376 | an image exact per shard, each at its own sequence, plus replay from at or below the lowest to any end at or past the highest, is full replay; with the per-shard filter and, for any other shard count, with the lowest-sequence filter |
| RecoveryCorrectness.PlainReplay | cache/recovery.go:94-123 | without a snapshot the walk rebuilds full replay, for the whole store or one shard |
| RecoveryCorrectness.RecoverAccepts | cache/recovery.go:49-124 | every directory of the store is accepted for any shard count; sequence, trimmed directory and image are those of the durable history |
| RecoveryCorrectness.ReconstructsIffReadable | cache/recovery.go:126-184 | reconstruction through a logged sequence is refused exactly when torn bytes end the segment it reads, and otherwise is replay through that sequence |
| RecoveryCorrectness.NothingToReplay | cache/recovery.go:146-149 | on directories of the store the shortcut without replay is right |
| RecoveryCorrectness.FaithfulPrefix | cache/snapshot.go:258-355 | a snapshot stays exact when the history behind its sequences changes |
| DiskLayout.LoadNewest | cache/snapshot.go:258-263 | loading picks the newest snapshot of the directory and decodes what was installed |
| DiskLayout.WalkRest | cache/recovery.go:97-117 | the walk from any segment yields the rest of the durable history |
| DiskLayout.WalkThrough | cache/recovery.go:166-181 | the walk to a boundary yields the history up to it, and succeeds exactly when the boundary is readable |
| RecoveryProperties.AcceptedIsContiguous | cache/recovery.go:78-123 | for arbitrary bytes: an accepted log is one unbroken run of records from the chosen segment's name to the returned sequence, every non-empty segment starts at its name, and behind a snapshot it begins by lowest + 1 and reaches the highest |
| RecoveryProperties.WalkedHolds | cache/recovery.go:294-382 | for arbitrary bytes: an accepted segment is byte for byte the encoding of its records, up to a trimmed tail in the final one |
| RecoveryProperties.OneShardOfWhole | cache/recovery.go:353-354 | for arbitrary directories: rebuilding one shard is accepted exactly when rebuilding all is, and holds exactly that shard's entries |
| RecoveryProperties.ShardsMakeTheWhole | cache/snapshot.go:216-232 | for arbitrary directories: each key of the whole image is in exactly one of the per-shard images, with the same entry |
| RecoveryProperties.CompactionIndependent | cache/recovery.go:126-184 | once the writer has rolled past the boundary, reconstruction gives the same result whatever is appended or rolled afterwards |
| CompactionWindow.StepSamePast | cache/snapshot.go:50-62 | no step during a compaction changes a snapshot, or a segment at or below the boundary |
| CompactionWindow.RunSamePast | cache/snapshot.go:50-62 | the same over any stretch of a run during which one compaction is under way |
| CompactionWindow.SlowReaderReconstructs | cache/recovery.go:126-184 | a compaction that loads the snapshot at one moment, lists the segments at another and opens each at yet another, while the writer appends and rolls, reconstructs the replay through its boundary |
| Skew.ReliableIffClosed | cache/recovery.go:126-184 | an accepted reconstruction is the replay of every history the directory may stand for if and only if it did not take a skewed image as it is or no record past the image's cover is open |
| Skew.AcceptedIsReplay | cache/recovery.go:141-184 | for arbitrary directories: an accepted reconstruction that did not take a skewed image as it is is the replay, whole or for one shard, of every history the snapshot is exact on and the segments hold |
| Skew.AcceptedWithoutSnapshot | cache/recovery.go:159-184 | without a snapshot an accepted reconstruction is the replay of the records it read |
| Skew.AcceptedLogIsReplay | cache/recovery.go:49-124 | for arbitrary directories, without exception: what `recoverLog` accepts behind a snapshot is the replay, through the returned sequence, of every history the snapshot is exact on and the segments hold |
| Skew.AcceptedLogWithoutSnapshot | cache/recovery.go:94-123 | the same without a snapshot |
| Skew.OpenIsWrong | cache/recovery.go:146-149 | where a skewed image is taken as it is and some record is open, the same directory may stand for a history of which the image is not the replay |
| Skew.ClosedIsRight | cache/recovery.go:146-149 | where no record is open the image taken as it is is the replay |
| Skew.SkewExample | cache/recovery.go:146-149 | for every platform with a key in the first of two shards: a directory, and a history it may stand for, that `recoverLog` refuses, `recoverDurableImage` accepts, and whose rebuilt image is not the replay |
| Skew.StoreNeverSkews | cache/snapshot.go:409-423 | no directory of a store has its log start past what its newest snapshot needs |
| Skew.HighestCheckNeeded | cache/recovery.go:118-121 | for any skew of two shards and any log that ends two or more records short of the highest sequence there are a history and an exact snapshot such that what recovery would build is the replay of no prefix of the history, for every shard count at reopen |
| Skew.OneRecordShort | cache/recovery.go:118-121 | a log that ends one record short would still give the replay of a prefix, with or without that record |
| RecoveryProgram.NewSnapshotState | cache/recovery.go:29-47 | the loop finds the smallest and the largest sequence |
| RecoveryProgram.LoadSnapshotFile | cache/snapshot.go:258-355 | the loop that applies entries as it reads them gives the image of decoding the whole file first, or the same refusal at the same offset |
| RecoveryProgram.LoadSnapshot | cache/snapshot.go:258-263 | the newest snapshot is the one loaded |
| RecoveryProgram.ChooseStart | cache/recovery.go:88-92 | the loop finds the last segment that starts at or before the first sequence required |
| RecoveryProgram.ReplaySegments | cache/recovery.go:97-117 | the loop over segments gives the fold over the whole walk, and trims only the last file |
| RecoveryProgram.RecoverLog | cache/recovery.go:49-124 | the program computes the recovery that the theorems are about, errors included |
| RecoveryProgram.ReplayThrough | cache/recovery.go:166-178 | the loop to a boundary gives the fold over the walk to it |
| RecoveryProgram.RecoverDurableImage | cache/recovery.go:126-184 | the program computes the reconstruction that the theorems are about, errors included |
| SegmentRecovery.RecoverSegment | cache/recovery.go:237-388 | one pass that applies records as it reads them does what decoding first and folding afterwards would, and cuts the file exactly at a torn tail |
| SegmentRecovery.TornTailRecovery | cache/recovery.go:274-388 | cut a segment at any byte at or after its header: the final walk yields exactly the records wholly inside the cut, leaves exactly their encoding, and a second recovery changes nothing |
| SegmentRecovery.StreamRoundTrip | cache/store.go:345-353 | every list of operations the size check admits is read back from its encoding unchanged |
| SegmentRecovery.AppendAfterRecovery | cache/wal.go:180-184 | appending to a recovered file keeps it the encoding of one consecutive run |
| SegmentRecovery.WalkCanonical | cache/recovery.go:294-382 | whatever the bytes, what a walk accepts is exactly the encoding of consecutive records, and nothing else |
| SegmentRecovery.WalkStream | cache/recovery.go:274-382 | written records are read back in order and the walk goes on behind them |
| SegmentRecovery.WalkTorn | cache/recovery.go:283-308 | the final segment keeps its whole records and loses the torn tail |
| SegmentRecovery.WalkRefusesTorn | cache/recovery.go:283-308 | a torn segment that is not final is refused, at the first torn byte |
| SegmentRecovery.WalkPart | cache/recovery.go:338-340 | reading up to a sequence inside a segment yields exactly the records up to it |
| WalCodec.CutStream | cache/wal.go:184-192 | any byte prefix of a record stream is its whole records followed by a proper part of the next |
| WalCodec.WholeRecordsFit | cache/wal.go:235-237 | these are the most records whose sizes fit in the cut |
| WalCodec.EncodeOpsAppend | cache/wal.go:180-183 | encoding a batch in rounds gives the bytes of encoding it at once |
| WalCodec.FieldsOfEncoded | cache/wal.go:239-257 | the fields of a record are read back, signed deadline included |
| Frames.ReadWritten | cache/wal.go:239-257 | an intact frame is read back and its checksum accepted |
| Frames.ReadTorn | cache/recovery.go:283-308 | every proper prefix of a frame is recognised as torn |
| Frames.ReadCanonical | cache/recovery.go:294-331 | accepted frame bytes are exactly the encoding of their body |
| LittleEndian.DecodeEncode | cache/wal.go:244-255 | little-endian fields decode to what was encoded |
| LittleEndian.EncodeDecode | cache/recovery.go:297-334 | and encode to the bytes they were decoded from |
| RecordBuffer.AppendRecord | cache/wal.go:239-257 | filling the buffer field by field, the checksum last, gives the record's encoding behind what was there |
| SnapshotWriter.WriteSnapshot | cache/snapshot.go:92-124 | writing a header without sequences, the entries shard by shard, and the patched header over it gives exactly the encoding of what was captured, named for the lowest sequence |
| SnapshotWriter.EncodeEntry | cache/snapshot.go:245-256 | filling the entry buffer field by field, the checksum last, gives the entry's encoding |
| SnapshotWriter.NewHeader | cache/snapshot.go:237-243 | the header before its sequences are known |
| SnapshotWriter.FillHeader | cache/snapshot.go:112-118 | the loop writes each sequence into its slot, touches nothing else, and finds the smallest |
| SnapshotCodec.SnapshotRoundTrip | cache/snapshot.go:237-256 | a written snapshot is read back as exactly its sequences and entries |
| SnapshotCodec.SnapshotCanonical | cache/snapshot.go:258-355 | for arbitrary bytes: an accepted snapshot is byte for byte the encoding of what it decodes to, with valid shard count and every entry covered |
| Replay.ReplayLookup | cache/entries.go:66-97 | in plain replay the last writer of a key decides |
| Replay.FoldAppend | cache/recovery.go:97-117 | replay segment by segment is replay of the whole log |
| Replay.FoldWithinCover | cache/recovery.go:355-361 | replaying records an image already covers leaves a key alone or brings it to its state at that point |
| Replay.FoldBeyondCover | cache/recovery.go:355-361 | from the sequence an image is exact at, replay keeps it exact, though replay began earlier |
| Replay.AgreementIsLiveEquality | cache/entries.go:226-228 | agreement per key up to expired entries is the same live view, now and ever after |
| WriterRefinement.WriteBatchInRun | cache/wal.go:146-210 | from any run of the protocol that has come to the state of the writer and of the shards on the heap, a batch continues the run: files, successful replies, and what the shards hold and have evicted afterwards are those of protocol steps; whatever was answered with success is recovered; and all is, if the file system does not fail |
| WriterRefinement.WriteBatches | cache/wal.go:78-88 | the same for any number of batches, one after the other: what each makes of the shards and of the sequence, and what its callers are told |
| WriterRefinement.EventsSteps | cache/wal.go:152-209 | every sequence of writes, cut writes, rollovers and failures of the writer is a run of the protocol that ends with the same files and sequence, with memory showing what the shards hold, and with as many evictions counted |
| WriterRefinement.RecordsSteps | cache/wal.go:196-206 | applying the records of a round one by one, each with the removals it entails, are protocol steps |
| WriterRefinement.RecordSteps | cache/entries.go:45-57 | one record: entering the held shard, expiring it if it is dead on arrival, making room, publishing, unlocking and answering are protocol steps that leave memory showing the list specification's result |
| WriterRefinement.TrimSteps | cache/entries.go:117-125 | evicting to capacity is a sequence of expiry steps and counted eviction steps, one per entry removed, from the least recent on |
| WriterRefinement.RunExtends | cache/wal.go:59-96 | a run can be continued by what its last state leads to |
| Writer.LogWriter.WriteBatch | cache/wal.go:146-210 | for any recovered log, whatever sizes it was written under: one reply per request; successes form a prefix, logged and applied under the same sequences; the rest get the one latched error, which is what the file system answered to the last call or that the sequence space is used up, so that without such a cause all succeed; a latched store writes and applies nothing; sequences never wrap; every segment that is new or grew is named for its first record and within the size without its last record |
| Writer.LogWriter.WriteAll | cache/wal.go:152-209 | the loop terminates and its turns together are one sequence of file events |
| Writer.LogWriter.constructor | cache/recovery.go:122-123 | a writer starts from any recovered directory |
| Writer.AllSized | cache/wal.go:158-178 | a log that only ever grew under one size has every segment within it without its last record |
| Sizing.RunGrown | cache/wal.go:158-178 | while one size is in force, over any stretch of a run with rolls, cleanup, crashes and reopenings: every segment is as it was or within the size without its last record |
| Sizing.RunSized | cache/wal.go:158-178 | a store that has always run with one size has every segment within it, in every reachable state |
| Sizing.OtherStepGrown | cache/snapshot.go:409-423 | no step but a write makes a segment grow, for any size |
| Writer.LogWriter.Turn | cache/wal.go:152-209 | a turn rolls exactly when the next record would not fit, and always takes at least one request |
| Writer.LogWriter.MakeRoom | cache/wal.go:158-165 | rolls exactly when the open segment is not empty and the next record would pass the size |
| Writer.LogWriter.PlanRound | cache/wal.go:167-178 | a round is as long as the size and the sequence space allow, and without its last record within the size |
| Writer.LogWriter.EncodeRound | cache/wal.go:180-183 | the payload is the encoding of the round from the next sequence on |
| Writer.LogWriter.ApplyRound | cache/wal.go:196-206 | each record is applied under the sequence it was encoded with and answered once |
| Writer.LogWriter.WriteRound | cache/wal.go:184-195 | a failed or short write may leave any prefix of its bytes and applies nothing |
| Writer.LogWriter.RollSegment | cache/wal.go:212-227 | a rollover leaves the records as they are; if it succeeds, an empty segment named for the next record is open |
| Writer.LogWriter.Latch | cache/store.go:367-376 | the first error wins and stays |
| Writer.LogWriter.RespondAll | cache/wal.go:229-233 | every remaining request gets the same error |
| Shard.Shard.SetEntry | cache/entries.go:66-87 | on the linked list, the map and the counters: put the entry in front, replacing one of the same key |
| Shard.Shard.MarkRecent | cache/entries.go:155-175 | relinking moves the entry to the front and changes nothing else |
| Shard.Shard.RemoveEntry | cache/entries.go:127-153 | unlinking removes exactly that entry; the charge never exceeds the recorded bytes; only an eviction moves the generation |
| Shard.Shard.EvictToCapacity | cache/entries.go:117-125 | terminates, never follows a missing `oldest`, evicts the specified suffix, and moves the generation by the live entries lost |
| Shard.Shard.ApplySet | cache/entries.go:45-57 | refines the list specification, eviction count included |
| Shard.Shard.ApplyDelete | cache/entries.go:89-97 | removes the key if present and never moves the generation |
| Shard.Shard.Get | cache/entries.go:23-43 | refines the list specification of a lookup: returns the value of a live entry and makes it most recent; removes an expired one and returns nothing |
| Shard.Shard.ReclaimExpired | cache/entries.go:109-115 | in any iteration order, exactly the expired entries go and the order of the rest stays |
| Shard.Shard.SweepPass | cache/entries.go:201-215 | in any order it looks at as many entries as it may or at all there are, and exactly the expired ones among them go |
| Shard.Shard.SweepShard | cache/entries.go:198-220 | its passes each look at as many entries as sample size and time allow or at all there are, and it goes on exactly while it should; a shard whose first pass may see every entry is left with none that had expired; it ends even without its time budget, leaves the live view as it was at every later time, and never moves the generation |
| Recency.PutIsSet | cache/entries.go:66-87 | as an image, putting an entry is the replay of its `Set` record |
| Recency.WithoutIsDelete | cache/entries.go:89-97 | as an image, removing a key is the replay of its `Delete` record |
| Recency.EvictIsMinimal | cache/entries.go:117-125 | eviction keeps a prefix that fits, and no longer prefix fits |
| Recency.OwnSetSurvives | cache/store.go:355-365 | an admitted live entry is never evicted by its own application |
| Recency.ApplySetFits | cache/entries.go:45-57 | a shard within its capacity stays within it, and its keys stay distinct |
| Recency.ApplySetLosesOnlyCounted | cache/entries.go:45-57 | applying a `Set` shows each key as replay does or not at all, and if the generation stands still only expired entries are missing |
| Recency.SweepIsInvisible | cache/entries.go:198-220 | reclaiming any sample of expired entries leaves the live view as it was, now and later |
| Recency.GetFound | cache/entries.go:23-43 | a lookup answers with a live entry's value and moves it in front of the others, whose order stays; an expired entry it takes out and does not answer with |
| Accounting.TotalsAreSums | cache/store.go:267-277 | over every run of operations on the shards, `Len` and `Bytes` are the sums over the shards and `Bytes` never exceeds the capacity, although it is divided with truncation |
| Accounting.StepInv | cache/entries.go:66-97 | every operation keeps the totals equal to the sums and each shard within its slice |
| Accounting.SweepRuns | cache/entries.go:198-220 | a sweep of several passes is a run of the value model |
| ShardLists.RecordShows | cache/recovery.go:353-376 | doing a record in its key's shard is applying it to the image the shards show |
| ShardLists.HousedWrite | cache/store.go:341-343 | a written record leaves every key in its own shard, once |
| ShardLists.WritesAppend | cache/wal.go:196-206 | what a batch makes of the shards, and how much it evicts, does not depend on how it is cut into rounds |
| ShardedStore.Store.Set | cache/entries.go:45-57 | on one heap: applying a `Set` to its shard moves the shared totals so that they stay the sums, touches no other shard, moves the eviction generation by the live entries lost, and is a step of the value model |
| ShardedStore.Store.Delete | cache/entries.go:89-97 | the same for a `Delete` |
| ShardedStore.Store.Get | cache/entries.go:23-43 | the same for a lookup, which answers from the key's shard |
| ShardedStore.Store.Sweep | cache/entries.go:198-220 | the same for a sweep of one shard, a run of the value model that leaves none expired where its first pass may see every entry, that no reader can tell and that never moves the generation |
| ShardedStore.Store.ApplyRecoveredSet | cache/entries.go:59-64 | the same for a recovered entry, without eviction |
| ShardedStore.Store.LoadItems | cache/snapshot.go:343-351 | loading entries in the order of the file leaves a heap on which every lookup finds what their image holds |
| ShardedStore.Store.ReplayRecords | cache/recovery.go:353-376 | replaying records onto the shards leaves a heap on which every lookup finds what the fold over the image holds |
| ShardedStore.Store.ApplyRecords | cache/wal.go:196-206 | applying a batch to the shards gives the lists and the eviction count of the specification |
| ShardedStore.Store.Run | cache/store.go:221-277 | any sequence of sets, deletes, lookups and sweeps on the heap: each does to the value of the store, and answers, what its specification says; together they are a run of the value model; the totals stay the sums and within the capacity |
| ShardedStore.OpenStore | cache/store.go:182-196 | opening: the heap shows the recovered image, up to what enforcing the capacity then takes from each shard |
| ShardedStore.OpenAndRun | cache/store.go:147-277 | from opening on: the store starts with what recovery found less what enforcing the capacity takes, each call afterwards does and answers what its specification says, and the totals are the sums and within the capacity |
| ShardedStore.Store.EnforceRecoveredState | cache/entries.go:99-107 | whatever was recovered, afterwards each shard is within its slice and the shared totals are the sums |
| ShardedStore.Store.TotalsOfShards | cache/store.go:267-277 | on the heap, `Len` and `Bytes` are the sums over the shards and `Bytes` is within the capacity |
| ShardedStore.Store.Apart | cache/store.go:341-343 | shards share no entry object, because a key belongs to one shard |
| ShardedStore.Store.constructor | cache/store.go:122-144 | a new store is empty, made of new objects wired to one set of totals, and within its slices |
| Accounting.EnforcedOk | cache/entries.go:99-107 | reclaiming and then evicting brings whatever a shard recovered within its slice |
| Accounting.SlicesFit | cache/store.go:182 | the slices together do not exceed the capacity, and larger ones would |
| CloseProtocol.CloseDrainsEverything | cache/store.go:308-339 | on every interleaving: requests are answered first come first served and at most once, the close request is the last one ever queued; when `Close` returns every queued request has been answered and, unless the store latched, exactly the queued writes are logged and applied, in that order |
| CloseProtocol.NothingAfterClose | cache/wal.go:113-144 | once the writer is done nothing is queued, answered, logged or applied any more |
| CloseProtocol.StepRecords | cache/wal.go:184-206 | what is logged is what was applied and what is about to be, in the order the writes were queued; a latched store applies nothing more |
| CloseProtocol.StepInv | cache/wal.go:59-111 | every step of submitters, closer and writer keeps the order, the place of the close request and the records |
| Names.NameRoundTrip | cache/recovery.go:223-233 | every name the store writes parses back to its sequence |
| Names.LexOrder | cache/wal.go:300-302 | names of one width sort as text the way their sequences sort |
| Names.SameLengthSameName | cache/recovery.go:200-202 | two names of one width never carry the same sequence |
| Names.ListFiles | cache/recovery.go:186-213 | lists exactly the sequences the names carry, ascending; refuses only a malformed name or a sequence carried twice |
| Names.ListingOfWritten | cache/snapshot.go:357-384 | a directory the store wrote lists as exactly the sequences it wrote, in order |
| Names.WrittenIsListed | cache/snapshot.go:363-379 | such a directory is never refused |
| Damage.BadChecksum | cache/recovery.go:322-332 | behind any records, a whole record with a wrong checksum refuses the segment at its offset, except as the very last bytes of the final segment, where the segment is cut before it |
| Damage.BadLength | cache/recovery.go:283-308 | behind any records, a length that is cut off, too small or past the end cuts the final segment there, whatever follows, and refuses any other |
| Damage.BadFields | cache/recovery.go:334-382 | behind any records, a whole record with a right checksum and a wrong field refuses the segment, final or not, at its offset |
| Damage.JudgeTable | cache/recovery.go:334-379 | which field fault is reported, the first one deciding, and what is accepted otherwise |
| Damage.DamagedHeader | cache/recovery.go:253-272 | which fault of a segment header is reported, and at which offset |
| Damage.ShortHeader | cache/recovery.go:255-257 | a file shorter than a header is refused, also as the final segment |
| Damage.DamageInsideRefuses | cache/recovery.go:322-332 | take any directory of a store and break the checksum of any record of any segment recovery reads: if anything follows it, there or in a later segment, the store does not open |
| Damage.DamageAtTheEndIsCut | cache/recovery.go:322-332 | break the last record: the store opens with exactly the records before it and cuts the file there, unless the newest snapshot needs more, and then it does not open |
| SnapshotDamage.DamagedHeader | cache/snapshot.go:276-302 | which fault of a snapshot header is reported, and at which offset |
| SnapshotDamage.ShortHeader | cache/snapshot.go:276-278 | a file shorter than the fixed header is refused |
| SnapshotDamage.BadChecksum | cache/snapshot.go:332-335 | behind any entries, a whole entry with a wrong checksum refuses the snapshot, also at its very end |
| SnapshotDamage.BadLength | cache/snapshot.go:316-327 | a length that is cut off, too small or past the end refuses the snapshot: it has no tail to trim |
| SnapshotDamage.BadFields | cache/snapshot.go:336-347 | a whole entry with a right checksum is refused for a key longer than it is or a sequence above its shard's, and for nothing else |
| SnapshotDamage.NewestUnreadableRefuses | cache/snapshot.go:258-271 | if the newest snapshot cannot be read, recovery and reconstruction fail for the same reason; neither an older snapshot nor the log stands in for it |
| Gaps.NoBeginning | cache/recovery.go:94-96 | without a snapshot, a log that does not begin with record one is refused as a gap |
| Gaps.GapBehindSnapshot | cache/recovery.go:78-87 | a log that begins past the record after the snapshot's lowest sequence is refused as a gap, by recovery always and by reconstruction unless it takes the snapshot as it is |
| Gaps.TooNew | cache/recovery.go:141-145 | a snapshot that reaches past the boundary refuses the reconstruction |
| Reopening.SnapshotAlone | cache/recovery.go:59-76 | for any directory without segments: a snapshot is taken exactly when all its shards stand at one sequence and there is a next one; the empty segment of the next sequence is then installed and nothing else is touched |
| Reopening.ReopenAfterWriting | cache/recovery.go:338-350 | for any accepted directory: appending records where recovery left off and recovering again takes them all, applied to the first image, if and only if the open segment was not empty or is named for the next sequence |
| Reopening.OffsetIsEnd | cache/recovery.go:122-123 | for any accepted directory: the offset returned is the end of the open segment, torn bytes cut off |
| Writer.StampedAt | cache/wal.go:196-206 | the records of a round are applied under consecutive sequences, in order |
| Reopening.WrongNameExample | cache/recovery.go:338-350 | a directory that is accepted, and refused once a record has been appended |
| Reopening.StoreContinues | cache/wal.go:259-298 | no directory of a store is like that |
| Format.RecordBytes | cache/wal.go:239-257 | a log record byte by byte: each field's place, width and order of bytes, the deadline in two's complement |
| Format.EntryBytes | cache/snapshot.go:245-256 | a snapshot entry byte by byte |
| Format.SnapshotHeaderBytes | cache/snapshot.go:237-243 | a snapshot header byte by byte, the sequences in shard order |
| Format.SegmentHeaderBytes | cache/wal.go:259-298 | the eight bytes every segment begins with |
| Format.AdmittedExactly | cache/store.go:345-353 | an operation passes the size check if and only if its key can be counted in 16 bits and its whole record in 32 |
| Admission.AcceptedIffApplicable | cache/store.go:355-365 | an entry is accepted if and only if its record can be logged and applying it leaves it in its shard, whatever the shard holds; it is then found until its deadline; one that only exceeds the shard would have emptied it |
| Recency.SetThenGet | cache/entries.go:226-228 | an admitted entry is found with its value before its deadline, for good if it has none, and not from its deadline on, also if it was dead on arrival |
| Recency.TooLargeEmptiesShard | cache/entries.go:117-125 | a live entry too large for its shard, and only such a one, would leave the shard empty |
| Recency.TotalIsBytes | cache/entries.go:222-224 | what a shard charges is 72 bytes an entry and the bytes of its keys and values |
| Recency.ReclaimSeenIs | cache/entries.go:201-215 | of the entries looked at exactly those go whose deadline is set and not later than now |
| Recency.LiveIsKept | cache/entries.go:117-125 | the live entries an eviction counts are those that reclaiming would leave |
| Recency.SweepReclaims | cache/entries.go:198-220 | a sweep whose first pass may look at every entry leaves none that had expired by then |
| LeastRecent.HeldByLastUse | cache/entries.go:155-175 | after any operations a shard's entries stand in the order in which their keys were last set or looked up |
| LeastRecent.EvictsLeastRecent | cache/entries.go:117-125 | whatever went before, an entry evicted by a `Set` was last used before every entry that stays |
| Shard.Shard.Counted | cache/entries.go:222-224 | a shard's byte counter is 72 per entry plus the bytes of its keys and values |
| Shard.Shard.SweepOnce | cache/entries.go:201-219 | a pass, and that another follows exactly if something was looked at, at least a quarter of it had expired, and there is time |
| Accounting.EnforcedIs | cache/entries.go:99-107 | opening takes from a shard the expired entries, and then, only if the others do not fit, as few of the least recent as it takes |
| Masks.ShardIsMask | cache/store.go:341-343 | shard selection is the mask of the hash, for every shard count the store accepts |
| Names.ParsesExactly | cache/recovery.go:223-233 | exactly which names are taken, and as which sequence: twenty digits, or eight, and zero only where it is allowed |
| CloseProtocol.EveryoneIsAnswered | cache/store.go:330-339 | as long as no new submitter enters, every run is shorter than what is left to do, and where it can go no further everything queued has been answered |
| CloseProtocol.CloseReturns | cache/store.go:308-328 | once `Close` has begun, every run is shorter than what is left to do, and where it can go no further `Close` has returned |
| CloseProtocol.NeverStuck | cache/store.go:308-339 | while anything waits some step can be taken, however full the channel is |
| Progress.EveryWriteCanSucceed | cache/wal.go:196-206 | in every reachable state of a store that has not latched, the writer can apply, publish and acknowledge every record of the history |
| Progress.SnapshotCanComplete | cache/snapshot.go:33-178 | in every reachable state with no snapshot under way and the writer between rounds, a snapshot can be taken from memory or from the files, installed and cleaned up after: one readable snapshot of the published sequence in every shard is left and at most one segment it covers |
| Progress.InstallAndCleanUp | cache/snapshot.go:157-175 | a finished image of the present generation can be installed, the others removed and the covered segments pruned |
| Progress.ImageFromFiles | cache/snapshot.go:180-201 | after an eviction, rolling and reconstructing gives a finished image of the published sequence |
| Progress.ImageFromMemory | cache/snapshot.go:92-124 | before any eviction, capturing shard by shard gives one |
| Masks.MaskIsRemainder | cache/store.go:341-343 | masking the hash with the shard count less one is the remainder the model uses |
| Masks.PowerOfTwoTest | cache/snapshot.go:293-296 | the bit test on a snapshot's shard count accepts exactly the powers of two |

## Left out

- Power loss, fsync, the flush ticker and directory sync: a snapshot may be synced ahead of the log, so the crash theorem is for process death only.
- Directory locking, temporary files and their cleanup, permissions, `os.File`: installing a file is one atomic rename.
- The eight-digit legacy names inside the crash theorem: `Names` parses them, and the store refuses a directory where both widths carry one sequence.
- The arithmetic of CRC32C and FNV-1a: both are arbitrary functions.
- Deadlines are taken as given: the conversion of a TTL to wall-clock time, context cancellation, loggers, statistics and error texts are not modelled.
- The threshold that starts an automatic snapshot: the protocol lets a snapshot start whenever none is under way.
- `cache/cmd/cached`, option parsing, and the `proxy`, `queue`, `resp` and `sysmon` directories.
- Scheduling: `CloseProtocol` and `Progress` say that what has begun can be finished, and closing that it comes to an end; that a goroutine that can run does run is not stated.
- RecoveryProgram.RecoverLog: builds a map; the shards and their recency order are the subject of `ShardedStore.Store.ReplayRecords`, and a refused recovery returns no directory, so the tail it may have trimmed before refusing is not captured.
- WriterRefinement.WriteBatchInRun: the batch is a run without steps of other goroutines between its own, which is the subject of `CrashSafety`; the program fills the heap shards after the batch's last write rather than after each round, which `ShardLists.WritesAppend` makes the same.
- RecoveryProperties.AcceptedIsContiguous: says what an accepted log looks like; what is refused, and what is trimmed, is the subject of `Damage`, `Gaps` and `Reopening`.
- ProtocolSteps.StepReconstruct: reads the directory in one step; that reading it piece by piece next to a running writer gives the same is `CompactionWindow.SlowReaderReconstructs`.
- ProtocolSteps.StepEvict: may remove any entry of a held shard, which covers the least-recent choice; which entry goes is the subject of `Recency`, `Shard` and `WriterRefinement.TrimSteps`.
- Shard.Shard.EvictToCapacity: the charges are unbounded integers, so overflow of the 64-bit byte counters is not modelled.
- Snapshot headers store the shard count in 32 bits: stores with more shards are outside the model.
