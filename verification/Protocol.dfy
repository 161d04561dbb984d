/** The running store as a state machine: the writer, the snapshot task, expiry
    and eviction interleave freely, and the process may die between any two steps. */
module Protocol {
  import opened Base
  import opened Replay
  import opened WalCodec
  import opened Recovery
  import opened DiskLayout
  import opened DiskSteps
  import SC = SnapshotCodec

  /** The writer's hold on one shard. `record`: the next record is in the shard but
      its sequence is not published yet. `evicted`: an entry was removed for space
      but the eviction generation does not say so yet. */
  datatype Lock = Free | Held(shard: nat, record: bool, evicted: bool)

  /** The one snapshot being worked on, if any. */
  datatype Task =
    | Idle
    | Capturing(sequences: seq<uint64>, items: seq<SC.Item>)
    | Reconstructing(through: uint64)
    | Ready(snapshot: SC.Snapshot, seen: Option<nat>)
    | Cleaning(name: uint64)

  datatype State = State(
    disk: Disk,
    shards: nat,
    now: int,
    mem: Image,
    generation: nat,   // evictions this process has counted
    published: nat,    // logSequence
    lock: Lock,
    latched: bool,
    task: Task,
    acked: nat)        // records whose callers have been told they succeeded

  datatype Action =
    | Tick(to: int)
    | WriteRound(ops: seq<Op>)
    | CutRound(ops: seq<Op>, cut: nat)
    | RollSegment
    | FailRoll(installed: bool)
    | Latch
    | ApplyRecord
    | Publish
    | Unlock
    | Acknowledge
    | Enforce(shard: nat)
    | Evict(key: Key)
    | CountEviction
    | Expire(key: Key)
    | BeginCapture
    | CaptureShard(items: seq<SC.Item>)
    | FinishCapture
    | BeginCompaction
    | Reconstruct(items: seq<SC.Item>)
    | FinalImage(parts: seq<seq<SC.Item>>)
    | InstallSnapshot
    | DiscardSnapshot
    | DropSnapshot(name: uint64)
    | DropSegment
    | EndTask
    | Restart(shards: nat, to: int)

  predicate ValidShards(shards: nat) { PowerOfTwo(shards) && shards <= 0xFFFF_FFFF }

  /** The writer is between rounds: everything written has been applied. */
  predicate Quiet(s: State) {
    !s.latched && s.lock.Free? && s.published == |s.disk.history|
  }

  /** The entries of one shard. */
  function ShardPart(p: Platform, shards: nat, m: Image, shard: nat): Image
    requires shards > 0
  {
    map k | k in m && ShardOf(p, shards, k) == shard :: m[k]
  }

  /** A listing of an image, in whatever order a map is iterated: each key once. */
  ghost predicate Enumerates(items: seq<SC.Item>, m: Image) {
    && (forall i :: 0 <= i < |items| ==> items[i].key in m && m[items[i].key] == items[i].entry)
    && (forall i, j :: 0 <= i < j < |items| ==> items[i].key != items[j].key)
    && ToImage(items) == m
  }

  function Repeat(n: nat, sequence: uint64): (r: seq<uint64>)
    ensures |r| == n && forall i :: 0 <= i < n ==> r[i] == sequence
  {
    seq(n, _ => sequence)
  }

  function Flatten(parts: seq<seq<SC.Item>>): seq<SC.Item> {
    if parts == [] then [] else Flatten(parts[..|parts| - 1]) + parts[|parts| - 1]
  }

  /** The entries of the durable image, rebuilt one configured shard at a time. */
  ghost predicate RebuiltParts(p: Platform, dir: Directory, shards: nat, through: uint64, parts: seq<seq<SC.Item>>)
    requires shards > 0
  {
    && |parts| == shards
    && forall i :: 0 <= i < |parts| ==> RebuiltPart(p, dir, shards, through, i, parts[i])
  }

  ghost predicate RebuiltPart(p: Platform, dir: Directory, shards: nat, through: uint64, shard: nat, part: seq<SC.Item>)
    requires shards > 0
  {
    var r := RecoverImage(p, dir, shards, Some(shard), through);
    r.Reconstructed? && Enumerates(part, r.image)
  }

  ghost predicate Enabled(p: Platform, s: State, a: Action)
    requires s.shards > 0 && Shape(s.disk) && LastName(s.disk) in s.disk.dir.segments
    requires s.published <= s.disk.durable
  {
    match a
    case Tick(to) => s.now <= to
    case WriteRound(ops) =>
      Quiet(s) && ops != [] && AllEncodable(ops) && s.disk.durable + |ops| <= MAX_SEQUENCE
    case CutRound(ops, cut) =>
      && Quiet(s) && ops != [] && AllEncodable(ops) && s.disk.durable + |ops| <= MAX_SEQUENCE
      && cut <= |EncodeOps(p, s.disk.durable, ops)|
    case RollSegment => Quiet(s) && s.published < MAX_SEQUENCE
    case FailRoll(_) => Quiet(s) && s.published < MAX_SEQUENCE
    // a failed fsync, or the sequence space used up
    case Latch => Quiet(s)
    case ApplyRecord => !s.latched && s.lock.Free? && s.published < |s.disk.history|
    case Publish => s.lock.Held? && s.lock.record && !s.lock.evicted
    case Unlock => s.lock.Held? && !s.lock.record && !s.lock.evicted
    case Acknowledge => s.acked < s.published
    case Enforce(shard) => s.lock.Free? && shard < s.shards
    case Evict(key) => s.lock.Held? && !s.lock.evicted && key in s.mem && ShardOf(p, s.shards, key) == s.lock.shard
    case CountEviction => s.lock.Held? && s.lock.evicted
    case Expire(key) => key in s.mem && DeadlinePassed(s.mem[key].deadline, s.now)
    case BeginCapture => s.task.Idle? && s.generation == 0
    case CaptureShard(items) =>
      && s.task.Capturing? && |s.task.sequences| < s.shards
      && !(s.lock.Held? && s.lock.shard == |s.task.sequences|)
      && Enumerates(items, ShardPart(p, s.shards, s.mem, |s.task.sequences|))
    case FinishCapture => s.task.Capturing? && |s.task.sequences| == s.shards
    case BeginCompaction => s.task.Idle? && Quiet(s) && s.generation != 0 && s.published < MAX_SEQUENCE
    case Reconstruct(items) =>
      && s.task.Reconstructing?
      && var r := RecoverImage(p, s.disk.dir, s.shards, None, s.task.through);
         r.Reconstructed? && Enumerates(items, r.image)
    case FinalImage(parts) =>
      && s.task.Idle? && s.lock.Free? && s.generation != 0
      && RebuiltParts(p, s.disk.dir, s.shards, s.published, parts)
    case InstallSnapshot =>
      && s.task.Ready? && SC.WellFormed(p, s.task.snapshot)
      && (s.task.seen.None? || s.task.seen.value == s.generation)
    case DiscardSnapshot => s.task.Ready? && s.task.seen.Some? && s.task.seen.value != s.generation
    case DropSnapshot(name) => s.task.Cleaning? && name in s.disk.snaps && name != s.task.name
    case DropSegment =>
      && s.task.Cleaning? && s.disk.snaps.Keys == {s.task.name}
      && |s.disk.firsts| > 1 && s.disk.firsts[1] <= s.task.name
    case EndTask => !s.task.Idle?
    case Restart(shards, to) =>
      ValidShards(shards) && s.now <= to && RecoverLog(p, s.disk.dir, shards).Recovered?
      && RecoverLog(p, s.disk.dir, shards).sequence <= |s.disk.history|
  }

  function Effect(p: Platform, s: State, a: Action): State
    requires s.shards > 0 && Shape(s.disk) && LastName(s.disk) in s.disk.dir.segments
    requires s.published <= s.disk.durable
    requires Enabled(p, s, a)
  {
    match a
    case Tick(to) => s.(now := to)
    case WriteRound(ops) => s.(disk := AppendCut(p, s.disk, ops, |EncodeOps(p, s.disk.durable, ops)|))
    case CutRound(ops, cut) => s.(disk := AppendCut(p, s.disk, ops, cut), latched := true)
    case RollSegment => s.(disk := Roll(s.disk))
    case FailRoll(installed) => s.(disk := if installed then Roll(s.disk) else s.disk, latched := true)
    case Latch => s.(latched := true)
    case ApplyRecord =>
      var op := s.disk.history[s.published];
      s.(mem := ApplyOp(s.mem, op, s.published + 1), lock := Held(ShardOf(p, s.shards, op.key), true, false))
    case Publish => s.(published := s.published + 1, lock := s.lock.(record := false))
    case Unlock => s.(lock := Free)
    case Acknowledge => s.(acked := s.acked + 1)
    case Enforce(shard) => s.(lock := Held(shard, false, false))
    case Evict(key) => s.(mem := s.mem - {key}, lock := s.lock.(evicted := true))
    case CountEviction => s.(generation := s.generation + 1, lock := s.lock.(evicted := false))
    case Expire(key) => s.(mem := s.mem - {key})
    case BeginCapture => s.(task := Capturing([], []))
    case CaptureShard(items) =>
      s.(task := Capturing(s.task.sequences + [s.published], s.task.items + items))
    case FinishCapture => s.(task := Ready(SC.Snapshot(s.task.sequences, s.task.items), Some(0)))
    case BeginCompaction => s.(disk := Roll(s.disk), task := Reconstructing(s.published))
    case Reconstruct(items) => s.(task := Ready(SC.Snapshot(Repeat(s.shards, s.task.through), items), None))
    case FinalImage(parts) =>
      s.(task := Ready(SC.Snapshot(Repeat(s.shards, s.published), Flatten(parts)), Some(s.generation)))
    case InstallSnapshot =>
      s.(disk := Install(p, s.disk, s.task.snapshot), task := Cleaning(Lowest(s.task.snapshot.sequences)))
    case DiscardSnapshot => s.(task := Idle)
    case DropSnapshot(name) => s.(disk := RemoveSnapshot(s.disk, name))
    case DropSegment => s.(disk := RemoveOldestSegment(s.disk))
    case EndTask => s.(task := Idle)
    case Restart(shards, to) =>
      var r := RecoverLog(p, s.disk.dir, shards);
      State(s.disk.(dir := r.dir, history := s.disk.history[..r.sequence], durable := r.sequence, tail := []),
            shards, to, r.image, 0, r.sequence, Free, false, Idle, r.sequence)
  }
}
