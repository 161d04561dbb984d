/** Every step of the protocol keeps the invariant. */
module ProtocolSteps {
  import opened Base
  import opened Replay
  import opened Listing
  import opened WalCodec
  import opened Recovery
  import opened DiskLayout
  import opened RecoveryCorrectness
  import opened DiskSteps
  import opened Protocol
  import opened ProtocolInvariant
  import opened Capture
  import SC = SnapshotCodec

  // ----- time and the log -----

  lemma StepTick(p: Platform, s: State, to: int)
    requires Inv(p, s) && s.now <= to
    ensures Inv(p, s.(now := to))
  {
    hide MemOk, TaskOk, DiskOk;
    var s' := s.(now := to);
    TickDisk(p, s.disk, s.now, to);
    MemKept(p, s, s');
    TaskKept(p, s, s');
  }

  /** A round of records, possibly cut at any byte, in which case the store latches. */
  lemma StepWrite(p: Platform, s: State, ops: seq<Op>, cut: nat, failed: bool)
    requires Inv(p, s) && Quiet(s) && Shape(s.disk) && LastName(s.disk) in s.disk.dir.segments
    requires AllEncodable(ops) && s.disk.durable + |ops| <= MAX_SEQUENCE
    requires cut <= |EncodeOps(p, s.disk.durable, ops)|
    requires failed || cut == |EncodeOps(p, s.disk.durable, ops)|
    ensures Inv(p, s.(disk := AppendCut(p, s.disk, ops, cut), latched := failed))
  {
    hide MemOk, TaskOk, DiskOk, EncodeOps, AllEncodable, TornPart, WholeRecords, Shape;
    var s' := s.(disk := AppendCut(p, s.disk, ops, cut), latched := failed);
    if !failed { NothingCut(p, s.disk.durable, ops); }
    AppendDisk(p, s.disk, ops, cut, s.now);
    MemKept(p, s, s');
    TaskKept(p, s, s');
  }

  lemma StepRoll(p: Platform, s: State, failed: bool)
    requires Inv(p, s) && Quiet(s) && s.published < MAX_SEQUENCE
    ensures Inv(p, s.(disk := Roll(s.disk), latched := failed))
    ensures s.published + 1 in Roll(s.disk).firsts
  {
    hide MemOk, TaskOk, DiskOk;
    var s' := s.(disk := Roll(s.disk), latched := failed);
    RollDisk(p, s.disk, s.now);
    MemKept(p, s, s');
    TaskKept(p, s, s');
    var firsts := Roll(s.disk).firsts;
    assert firsts[|firsts| - 1] == s.published + 1;
  }

  lemma StepLatch(p: Platform, s: State)
    requires Inv(p, s) && s.lock.Free?
    ensures Inv(p, s.(latched := true))
  {
    hide MemOk, TaskOk, DiskOk;
    var s' := s.(latched := true);
    MemKept(p, s, s');
    TaskKept(p, s, s');
  }

  // ----- memory -----

  /** Steps that touch memory, the lock or the published sequence only. */
  lemma MemoryStep(p: Platform, s: State, s': State)
    requires Inv(p, s) && Bounds(p, s') && MemOk(p, s')
    requires s'.disk == s.disk && s'.task == s.task && s'.shards == s.shards && s'.now == s.now
    requires s.published <= s'.published && s.generation <= s'.generation
    ensures Inv(p, s')
  {
    hide MemOk, TaskOk, DiskOk, Highest;
    TaskKept(p, s, s');
  }

  /** The writer puts the next record into its shard, which it holds. */
  lemma StepApply(p: Platform, s: State)
    requires Inv(p, s) && !s.latched && s.lock.Free? && s.published < |s.disk.history|
    ensures
      var op := s.disk.history[s.published];
      Inv(p, s.(mem := ApplyOp(s.mem, op, s.published + 1), lock := Held(ShardOf(p, s.shards, op.key), true, false)))
  {
    hide TaskOk, DiskOk, SnapsBelow, ShardOf;
    var op := s.disk.history[s.published];
    var s' := s.(mem := ApplyOp(s.mem, op, s.published + 1), lock := Held(ShardOf(p, s.shards, op.key), true, false));
    forall k
      ensures KeyOk(p, s', k)
    {
      assert KeyOk(p, s, k);
    }
    MemoryStep(p, s, s');
  }

  lemma StepPublish(p: Platform, s: State)
    requires Inv(p, s) && s.lock.Held? && s.lock.record && !s.lock.evicted
    ensures Inv(p, s.(published := s.published + 1, lock := s.lock.(record := false)))
  {
    hide TaskOk, DiskOk, SnapsBelow, ShardOf;
    var s' := s.(published := s.published + 1, lock := s.lock.(record := false));
    forall k
      ensures KeyOk(p, s', k)
    {
      assert KeyOk(p, s, k);
    }
    MemoryStep(p, s, s');
  }

  lemma StepLockChange(p: Platform, s: State, lock: Lock)
    requires Inv(p, s)
    requires s.lock.Held? ==> !s.lock.record && !s.lock.evicted
    requires lock.Held? ==> !lock.record && !lock.evicted && lock.shard < s.shards
    ensures Inv(p, s.(lock := lock))
  {
    hide TaskOk, DiskOk, SnapsBelow, ShardOf, KeyAt;
    var s' := s.(lock := lock);
    forall k
      ensures KeyOk(p, s', k)
    {
      assert KeyOk(p, s, k);
    }
    MemoryStep(p, s, s');
  }

  lemma StepAcknowledge(p: Platform, s: State)
    requires Inv(p, s) && s.acked < s.published
    ensures Inv(p, s.(acked := s.acked + 1))
  {
    hide TaskOk, DiskOk, SnapsBelow, MemOk;
    MemKept(p, s, s.(acked := s.acked + 1));
    MemoryStep(p, s, s.(acked := s.acked + 1));
  }

  lemma StepEvict(p: Platform, s: State, key: Key)
    requires Inv(p, s) && s.lock.Held? && !s.lock.evicted && ShardOf(p, s.shards, key) == s.lock.shard
    ensures Inv(p, s.(mem := s.mem - {key}, lock := s.lock.(evicted := true)))
  {
    hide TaskOk, DiskOk, SnapsBelow, ShardOf, KeyAt;
    var s' := s.(mem := s.mem - {key}, lock := s.lock.(evicted := true));
    forall k
      ensures KeyOk(p, s', k)
    {
      assert KeyOk(p, s, k);
    }
    MemoryStep(p, s, s');
  }

  lemma StepCountEviction(p: Platform, s: State)
    requires Inv(p, s) && s.lock.Held?
    ensures Inv(p, s.(generation := s.generation + 1, lock := s.lock.(evicted := false)))
  {
    hide TaskOk, DiskOk, SnapsBelow, ShardOf, KeyAt;
    var s' := s.(generation := s.generation + 1, lock := s.lock.(evicted := false));
    forall k
      ensures KeyOk(p, s', k)
    {
      assert KeyOk(p, s, k);
    }
    MemoryStep(p, s, s');
  }

  lemma StepExpire(p: Platform, s: State, key: Key)
    requires Inv(p, s) && key in s.mem && DeadlinePassed(s.mem[key].deadline, s.now)
    ensures Inv(p, s.(mem := s.mem - {key}))
  {
    hide TaskOk, DiskOk, SnapsBelow, ShardOf, KeyAt;
    var s' := s.(mem := s.mem - {key});
    forall k
      ensures KeyOk(p, s', k)
    {
      assert KeyOk(p, s, k);
    }
    MemoryStep(p, s, s');
  }

  // ----- the snapshot task -----

  /** Steps that change only what the snapshotter is doing. */
  lemma TaskStep(p: Platform, s: State, task: Task)
    requires Inv(p, s) && TaskOk(p, s.(task := task))
    ensures Inv(p, s.(task := task))
  {
    hide MemOk, TaskOk, DiskOk, Highest;
    MemKept(p, s, s.(task := task));
  }

  lemma StepBeginCapture(p: Platform, s: State)
    requires Inv(p, s)
    ensures Inv(p, s.(task := Capturing([], [])))
  {
    hide MemOk, DiskOk, SnapsBelow;
    TaskStep(p, s, Capturing([], []));
  }

  lemma SameCapture(p: Platform, s: State, task: Task, sequences: seq<uint64>, items: seq<SC.Item>, exact: bool)
    requires Bounds(p, s) && CaptureOk(p, s, sequences, items, exact)
    ensures CaptureOk(p, s.(task := task), sequences, items, exact)
  {
    hide CaptureOk;
    CaptureKept(p, s, s.(task := task), sequences, items, exact, exact);
  }

  lemma StepCapture(p: Platform, s: State, items: seq<SC.Item>)
    requires Inv(p, s) && s.task.Capturing? && |s.task.sequences| < s.shards
    requires !(s.lock.Held? && s.lock.shard == |s.task.sequences|)
    requires Enumerates(items, ShardPart(p, s.shards, s.mem, |s.task.sequences|))
    ensures Inv(p, s.(task := Capturing(s.task.sequences + [s.published], s.task.items + items)))
  {
    hide MemOk, DiskOk, SnapsBelow, CaptureOk, Enumerates;
    var task := Capturing(s.task.sequences + [s.published], s.task.items + items);
    CaptureOne(p, s, s.task.sequences, s.task.items, items);
    SameCapture(p, s, task, task.sequences, task.items, s.generation == 0);
    TaskStep(p, s, task);
  }

  lemma StepFinishCapture(p: Platform, s: State)
    requires Inv(p, s) && s.task.Capturing? && |s.task.sequences| == s.shards
    ensures Inv(p, s.(task := Ready(SC.Snapshot(s.task.sequences, s.task.items), Some(0))))
  {
    hide MemOk, DiskOk, SnapsBelow, CaptureOk;
    var task := Ready(SC.Snapshot(s.task.sequences, s.task.items), Some(0));
    SameCapture(p, s, task, s.task.sequences, s.task.items, s.generation == 0);
    TaskStep(p, s, task);
  }

  lemma StepBeginCompaction(p: Platform, s: State)
    requires Inv(p, s) && Quiet(s) && s.published < MAX_SEQUENCE
    ensures Inv(p, s.(disk := Roll(s.disk), task := Reconstructing(s.published)))
  {
    hide MemOk, DiskOk, Highest;
    StepRoll(p, s, false);
    var rolled := s.(disk := Roll(s.disk), latched := false);
    TaskStep(p, rolled, Reconstructing(s.published));
  }

  /** Once the writer has rolled past `through`, that boundary stays readable. */
  lemma RolledIsBoundary(d: Disk, through: uint64)
    requires Shape(d) && through <= d.durable && through + 1 in d.firsts
    ensures Boundary(d, through)
  {
    var i :| 0 <= i < |d.firsts| && d.firsts[i] == through + 1;
    Extent(d, i);
  }

  /** A compaction that has begun can always read its image back. */
  lemma CompactionNeverRefused(p: Platform, s: State)
    requires Inv(p, s) && s.task.Reconstructing?
    ensures
      var r := RecoverImage(p, s.disk.dir, s.shards, None, s.task.through);
      r.Reconstructed? && RebuildsShard(p, s.shards, None, r.image, s.disk.history, s.task.through, s.now)
  {
    hide MemOk, Highest, RecoverImage, RebuildsShard;
    InvBasics(p, s);
    RolledIsBoundary(s.disk, s.task.through);
    ReconstructsIffReadable(p, s.disk, s.shards, None, s.task.through, s.now);
  }

  lemma StepReconstruct(p: Platform, s: State, items: seq<SC.Item>)
    requires Inv(p, s) && s.task.Reconstructing?
    requires
      var r := RecoverImage(p, s.disk.dir, s.shards, None, s.task.through);
      r.Reconstructed? && Enumerates(items, r.image)
    ensures Inv(p, s.(task := Ready(SC.Snapshot(Repeat(s.shards, s.task.through), items), None)))
  {
    hide MemOk, DiskOk, SnapsBelow, RecoverImage, RebuildsShard, CaptureOk, Enumerates;
    CompactionNeverRefused(p, s);
    var r := RecoverImage(p, s.disk.dir, s.shards, None, s.task.through);
    var task := Ready(SC.Snapshot(Repeat(s.shards, s.task.through), items), None);
    WholeImage(p, s, s.task.through, items, r.image, true);
    SameCapture(p, s, task, task.snapshot.sequences, items, true);
    TaskStep(p, s, task);
  }

  lemma StepFinalImage(p: Platform, s: State, parts: seq<seq<SC.Item>>)
    requires Inv(p, s) && RebuiltParts(p, s.disk.dir, s.shards, s.published, parts) && s.published <= MAX_SEQUENCE
    ensures Inv(p, s.(task := Ready(SC.Snapshot(Repeat(s.shards, s.published), Flatten(parts)), Some(s.generation))))
  {
    hide MemOk, DiskOk, SnapsBelow, RebuiltParts, CaptureOk;
    var task := Ready(SC.Snapshot(Repeat(s.shards, s.published), Flatten(parts)), Some(s.generation));
    ShardwiseImage(p, s, s.published, parts, true);
    SameCapture(p, s, task, task.snapshot.sequences, task.snapshot.items, true);
    TaskStep(p, s, task);
  }

  /** The eviction interlock: an image is renamed into place only if no eviction
      overtook it, and then it lacks no live durable entry. */
  lemma StepInstall(p: Platform, s: State)
    requires Inv(p, s) && s.task.Ready? && SC.WellFormed(p, s.task.snapshot)
    requires s.task.seen.None? || s.task.seen.value == s.generation
    ensures |s.task.snapshot.sequences| > 0 && Highest(s.task.snapshot.sequences) <= |s.disk.history| <= MAX_SEQUENCE
    ensures Faithful(p, s.task.snapshot, s.disk.history, s.now)
    ensures Inv(p, s.(disk := Install(p, s.disk, s.task.snapshot), task := Cleaning(Lowest(s.task.snapshot.sequences))))
  {
    hide MemOk, CaptureOk, SC.WellFormed, Lowest, Highest, LogOk, SnapOk, Faithful, Largest;
    var snapshot := s.task.snapshot;
    FinishedIsNewest(p, s, snapshot, true);
    NamesBelow(p, s, Lowest(snapshot.sequences));
    InstallDisk(p, s.disk, snapshot, s.now);
    InstallNewest(p, s.disk, snapshot);
    MemKept(p, s, s.(disk := Install(p, s.disk, snapshot), task := Cleaning(Lowest(snapshot.sequences))));
  }

  lemma NamesBelow(p: Platform, s: State, sequence: uint64)
    requires Inv(p, s) && SnapsBelow(s, sequence)
    ensures forall name :: name in s.disk.snaps ==> name <= sequence
  {
    hide MemOk, TaskOk, LogOk, Faithful, SC.WellFormed;
    InvBasics(p, s);
    forall name | name in s.disk.snaps
      ensures name <= sequence
    {
      assert SnapOk(p, s.disk, name, s.now);
    }
  }

  lemma StepDropSnapshot(p: Platform, s: State, name: uint64)
    requires Inv(p, s) && s.task.Cleaning? && name in s.disk.snaps && name != s.task.name
    ensures Inv(p, s.(disk := RemoveSnapshot(s.disk, name)))
  {
    hide MemOk, DiskOk, Highest, Largest;
    RemoveSnapshotDisk(p, s.disk, name, s.now);
    MemKept(p, s, s.(disk := RemoveSnapshot(s.disk, name)));
  }

  lemma StepDropSegment(p: Platform, s: State)
    requires Inv(p, s) && s.task.Cleaning? && |s.disk.firsts| > 1 && s.disk.firsts[1] <= s.task.name
    ensures Inv(p, s.(disk := RemoveOldestSegment(s.disk)))
  {
    hide MemOk, DiskOk, Highest, Largest;
    RemoveSegmentDisk(p, s.disk, s.now);
    MemKept(p, s, s.(disk := RemoveOldestSegment(s.disk)));
  }

  lemma StepEndTask(p: Platform, s: State)
    requires Inv(p, s)
    ensures Inv(p, s.(task := Idle))
  {
    hide MemOk, DiskOk, SnapsBelow;
    TaskStep(p, s, Idle);
  }

  // ----- crash and reopen -----

  lemma StepRestart(p: Platform, s: State, shards: nat, to: int)
    requires Inv(p, s) && ValidShards(shards) && shards > 0 && s.now <= to
    ensures
      var r := RecoverLog(p, s.disk.dir, shards);
      && r.Recovered? && r.sequence == s.disk.durable
      && Inv(p, State(s.disk.(dir := r.dir, history := s.disk.history[..r.sequence], durable := r.sequence, tail := []),
                      shards, to, r.image, 0, r.sequence, Free, false, Idle, r.sequence))
  {
    hide MemOk, DiskOk, Highest, RecoverLog, KeyAt, PowerOfTwo;
    RecoverAccepts(p, s.disk, shards, s.now);
    InvBasics(p, s);
    var r := RecoverLog(p, s.disk.dir, shards);
    var disk := s.disk.(dir := r.dir, history := s.disk.history[..r.sequence], durable := r.sequence, tail := []);
    assert disk == Trimmed(p, s.disk);
    TrimDisk(p, s.disk, s.now, to);
    var s' := State(disk, shards, to, r.image, 0, r.sequence, Free, false, Idle, r.sequence);
    ReopenedMemory(p, s.disk, s', s.now);
  }

  lemma ReopenedMemory(p: Platform, d: Disk, s: State, now: int)
    requires d.durable <= |d.history| <= MAX_SEQUENCE && Rebuilds(s.mem, d.history, d.durable, now) && now <= s.now
    requires Bounds(p, s) && s.lock.Free? && s.published == d.durable && s.disk.history == d.history[..d.durable]
    ensures MemOk(p, s)
  {
    hide KeyAt;
    forall k
      ensures KeyOk(p, s, k)
    {
      assert Agrees(Lookup(s.mem, k), KeyAt(d.history, d.durable, k), now);
      assert d.history[..d.durable][..d.durable] == d.history[..d.durable];
      KeyAtPrefix(d.history, s.disk.history, d.durable, k);
    }
  }
}
