/** What a compaction reads while the writer keeps going. */
module CompactionWindow {
  import opened Base
  import opened Replay
  import opened WalCodec
  import opened SegmentRecovery
  import opened Recovery
  import opened DiskLayout
  import opened DiskSteps
  import opened RecoveryCorrectness
  import opened RecoveryProperties
  import opened Protocol
  import opened ProtocolInvariant
  import opened ProtocolSteps
  import opened CrashSafety
  import SC = SnapshotCodec

  /** The last segment, and the one a roll would install, lie past the boundary. */
  lemma PastBoundary(p: Platform, s: State)
    requires Inv(p, s) && s.task.Reconstructing?
    ensures
      var through := s.task.through;
      && through < MAX_SEQUENCE && through <= s.published <= s.disk.durable
      && |s.disk.firsts| > 0 && through + 1 in s.disk.dir.segments && through < LastName(s.disk)
  {
    hide MemOk, SnapOk, Reaches, FileOf, TornTail, AllEncodable, SnapsBelow, PowerOfTwo;
    var i :| 0 <= i < |s.disk.firsts| && s.disk.firsts[i] == s.task.through + 1;
    Extent(s.disk, i);
    assert SegmentOk(p, s.disk, i);
  }

  /** A step during a compaction changes no file the compaction reads. */
  lemma StepSamePast(p: Platform, s: State, a: Action, s': State)
    requires Inv(p, s) && Step(p, s, a, s') && s.task.Reconstructing? && s'.task == s.task
    ensures SamePast(s.disk.dir, s'.disk.dir, s.task.through)
  {
    hide DiskOk, MemOk, TaskOk, SnapsBelow, RecoverLog, RecoverImage, Enumerates, RebuiltParts, SC.WellFormed, AllEncodable, EncodeOps, Shape,
         PowerOfTwo, Flatten, Repeat, Lowest, ApplyOp, TornPart, WholeRecords, SegmentHeader, SamePast;
    PastBoundary(p, s);
    var dir, dir', through := s.disk.dir, s'.disk.dir, s.task.through;
    SameAsItself(dir, through);
    if a.WriteRound? || a.CutRound? {
      LaterFile(dir, LastName(s.disk), dir'.segments[LastName(s.disk)], through);
    } else if dir' != dir {
      LaterFile(dir, s.disk.durable + 1, SegmentHeader(), through);
    }
  }

  /** Writing or installing a segment past the boundary. */
  lemma LaterFile(dir: Directory, x: SegmentName, bytes: Bytes, through: uint64)
    requires through < MAX_SEQUENCE && through + 1 in dir.segments && through < x
    ensures SamePast(dir, dir.(segments := dir.segments[x := bytes]), through)
  {
  }

  lemma SamePastTwice(a: Directory, b: Directory, c: Directory, through: uint64)
    requires SamePast(a, b, through) && SamePast(b, c, through)
    ensures SamePast(a, c, through)
  {
  }

  /** From state `i` to state `j` the snapshot task is the same compaction. */
  predicate Compacting(states: seq<State>, i: nat, j: nat, through: uint64)
    requires i <= j < |states|
  {
    forall l :: i <= l <= j ==> states[l].task == Reconstructing(through)
  }

  lemma {:induction false} RunSamePast(p: Platform, states: seq<State>, actions: seq<Action>, i: nat, j: nat, through: uint64)
    requires IsRun(p, states, actions) && i <= j < |states| && Compacting(states, i, j, through)
    ensures SamePast(states[i].disk.dir, states[j].disk.dir, through)
    decreases j
  {
    hide Inv, Step, SamePast, Init;
    RunInv(p, states, actions, i);
    if i == j {
      PastBoundary(p, states[i]);
      SameAsItself(states[i].disk.dir, through);
    } else {
      RunInv(p, states, actions, j - 1);
      assert states[j - 1].task == states[j].task == Reconstructing(through);
      RunSamePast(p, states, actions, i, j - 1, through);
      StepSamePast(p, states[j - 1], actions[j - 1], states[j]);
      SamePastTwice(states[i].disk.dir, states[j - 1].disk.dir, states[j].disk.dir, through);
    }
  }

  lemma SameAsItself(dir: Directory, through: uint64)
    requires through < MAX_SEQUENCE && through + 1 in dir.segments
    ensures SamePast(dir, dir, through)
  {
  }

  // ----- a reader that takes its time -----

  predicate SnapshotSeen(states: seq<State>, seen: Directory, m: nat)
    requires m < |states|
  {
    seen.snapshots == states[m].disk.dir.snapshots
  }

  predicate NamesSeen(states: seq<State>, seen: Directory, m: nat)
    requires m < |states|
  {
    seen.segments.Keys == states[m].disk.dir.segments.Keys
  }

  predicate BytesSeen(states: seq<State>, seen: Directory, x: SegmentName, m: nat)
    requires m < |states| && x in seen.segments
  {
    x in states[m].disk.dir.segments && seen.segments[x] == states[m].disk.dir.segments[x]
  }

  /** What a reader may see that loads the snapshot at one moment, lists the segments at
      another, and opens each segment at yet another. */
  ghost predicate SeenDuring(states: seq<State>, i: nat, j: nat, seen: Directory)
    requires i <= j < |states|
  {
    && (exists m :: i <= m <= j && SnapshotSeen(states, seen, m))
    && (exists m :: i <= m <= j && NamesSeen(states, seen, m))
    && (forall x :: x in seen.segments ==> exists m :: i <= m <= j && BytesSeen(states, seen, x, m))
  }

  lemma SeenIsSamePast(p: Platform, states: seq<State>, actions: seq<Action>, i: nat, j: nat, through: uint64, seen: Directory)
    requires IsRun(p, states, actions) && i <= j < |states| && Compacting(states, i, j, through) && SeenDuring(states, i, j, seen)
    ensures SamePast(states[i].disk.dir, seen, through)
  {
    hide IsRun, Compacting, SamePast;
    var dir := states[i].disk.dir;
    var a :| i <= a <= j && SnapshotSeen(states, seen, a);
    var b :| i <= b <= j && NamesSeen(states, seen, b);
    SameAt(p, states, actions, i, j, through, a);
    SameAt(p, states, actions, i, j, through, b);
    forall x | x <= through && x in dir.segments && x in seen.segments
      ensures dir.segments[x] == seen.segments[x]
    {
      var m :| i <= m <= j && BytesSeen(states, seen, x, m);
      SameAt(p, states, actions, i, j, through, m);
      SameBytes(dir, states[m].disk.dir, through, x);
    }
    Assembled(dir, states[a].disk.dir, states[b].disk.dir, seen, through);
  }

  lemma SameAt(p: Platform, states: seq<State>, actions: seq<Action>, i: nat, j: nat, through: uint64, m: nat)
    requires IsRun(p, states, actions) && i <= m <= j < |states| && Compacting(states, i, j, through)
    ensures SamePast(states[i].disk.dir, states[m].disk.dir, through)
  {
    hide Step, Init, SamePast;
    RunSamePast(p, states, actions, i, m, through);
  }

  lemma SameBytes(dir: Directory, dir': Directory, through: uint64, x: SegmentName)
    requires SamePast(dir, dir', through) && x <= through && x in dir.segments
    ensures x in dir'.segments && dir.segments[x] == dir'.segments[x]
  {
  }

  lemma Assembled(dir: Directory, a: Directory, b: Directory, seen: Directory, through: uint64)
    requires SamePast(dir, a, through) && SamePast(dir, b, through)
    requires seen.snapshots == a.snapshots && seen.segments.Keys == b.segments.Keys
    requires forall x :: x <= through && x in dir.segments && x in seen.segments ==> dir.segments[x] == seen.segments[x]
    ensures SamePast(dir, seen, through)
  {
    assert forall x :: x in seen.segments <==> x in b.segments;
  }

  /** Compaction next to a running writer. However the snapshot, the listing and the
      segments are read over the time of a compaction, while the writer appends and
      rolls, the reader reconstructs the replay of the history through the boundary. */
  lemma SlowReaderReconstructs(p: Platform, states: seq<State>, actions: seq<Action>, i: nat, j: nat, through: uint64, seen: Directory)
    requires IsRun(p, states, actions) && i <= j < |states| && Compacting(states, i, j, through) && SeenDuring(states, i, j, seen)
    ensures
      var s := states[j];
      && s.shards > 0 && states[i].shards == s.shards && through <= |s.disk.history| <= MAX_SEQUENCE
      && var r := RecoverImage(p, seen, s.shards, None, through);
         && r == RecoverImage(p, s.disk.dir, s.shards, None, through)
         && r.Reconstructed? && RebuildsShard(p, s.shards, None, r.image, s.disk.history, through, s.now)
  {
    hide Step, Init, SamePast, RecoverImage, RebuildsShard, DiskOk, MemOk, SnapsBelow, PowerOfTwo, SeenDuring;
    RunInv(p, states, actions, i);
    RunInv(p, states, actions, j);
    assert states[i].task == states[j].task == Reconstructing(through);
    SameShards(p, states, actions, i, j, through);
    SeenIsSamePast(p, states, actions, i, j, through, seen);
    RunSamePast(p, states, actions, i, j, through);
    CompactionIndependent(p, states[i].disk.dir, seen, states[j].shards, None, through);
    CompactionIndependent(p, states[i].disk.dir, states[j].disk.dir, states[j].shards, None, through);
    CompactionNeverRefused(p, states[j]);
  }

  lemma {:induction false} SameShards(p: Platform, states: seq<State>, actions: seq<Action>, i: nat, j: nat, through: uint64)
    requires IsRun(p, states, actions) && i <= j < |states| && Compacting(states, i, j, through)
    ensures states[i].shards == states[j].shards
    decreases j
  {
    hide Step, Init;
    if i < j {
      SameShards(p, states, actions, i, j - 1, through);
      assert states[j].task == Reconstructing(through);
      StepShards(p, states[j - 1], actions[j - 1], states[j]);
    }
  }

  lemma StepShards(p: Platform, s: State, a: Action, s': State)
    requires Step(p, s, a, s') && s'.task.Reconstructing?
    ensures s'.shards == s.shards
  {
    hide RecoverLog, RecoverImage, Enumerates, RebuiltParts, SC.WellFormed, AllEncodable, EncodeOps, Shape, PowerOfTwo, Flatten, Repeat, Lowest,
         ApplyOp, AppendCut, Roll, Install;
  }
}
