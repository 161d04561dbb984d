/** Safety over whole runs of the store, across any number of crashes and reopenings. */
module CrashSafety {
  import opened Base
  import opened Replay
  import opened WalCodec
  import opened Recovery
  import opened DiskLayout
  import opened RecoveryCorrectness
  import opened DiskSteps
  import opened Protocol
  import opened ProtocolInvariant
  import opened ProtocolSteps
  import opened Capture
  import opened Skew
  import SC = SnapshotCodec

  /** A store just opened on an empty directory. */
  ghost predicate Init(s: State) {
    && s.disk == Fresh() && ValidShards(s.shards) && s.mem == map[] && s.generation == 0 && s.published == 0
    && s.lock.Free? && !s.latched && s.task.Idle? && s.acked == 0
  }

  ghost predicate Step(p: Platform, s: State, a: Action, s': State) {
    && s.shards > 0 && Shape(s.disk) && LastName(s.disk) in s.disk.dir.segments && s.published <= s.disk.durable
    && Enabled(p, s, a) && s' == Effect(p, s, a)
  }

  ghost predicate IsRun(p: Platform, states: seq<State>, actions: seq<Action>) {
    && |states| == |actions| + 1
    && Init(states[0])
    && forall i :: 0 <= i < |actions| ==> Step(p, states[i], actions[i], states[i + 1])
  }

  lemma InitInv(p: Platform, s: State)
    requires Init(s)
    ensures Inv(p, s)
  {
    hide DiskOk, PowerOfTwo;
    FreshDisk(p, s.now);
    PowerIsPositive(s.shards);
  }

  lemma PowerIsPositive(n: nat)
    ensures PowerOfTwo(n) ==> n > 0
  {
  }

  /** The actions of the snapshot task. */
  predicate OfSnapshot(a: Action) {
    || a.BeginCapture? || a.CaptureShard? || a.FinishCapture? || a.BeginCompaction? || a.Reconstruct? || a.FinalImage?
    || a.InstallSnapshot? || a.DiscardSnapshot? || a.DropSnapshot? || a.DropSegment? || a.EndTask?
  }

  /** One step of anything keeps the invariant. */
  lemma StepInv(p: Platform, s: State, a: Action, s': State)
    requires Inv(p, s) && Step(p, s, a, s')
    ensures Inv(p, s')
  {
    hide Inv, Step;
    if OfSnapshot(a) { SnapshotStepInv(p, s, a, s'); } else { StoreStepInv(p, s, a, s'); }
  }

  lemma StoreStepInv(p: Platform, s: State, a: Action, s': State)
    requires Inv(p, s) && Step(p, s, a, s') && !OfSnapshot(a)
    ensures Inv(p, s')
  {
    hide Inv, RecoverLog, RecoverImage, Enumerates, RebuiltParts, SC.WellFormed, AllEncodable, EncodeOps, Shape, PowerOfTwo,
         AppendCut, Roll, Install, RemoveSnapshot, RemoveOldestSegment, Flatten, Repeat, Lowest, ApplyOp;
    match a
    case Tick(to) => StepTick(p, s, to);
    case WriteRound(ops) =>
      StepWrite(p, s, ops, |EncodeOps(p, s.disk.durable, ops)|, false);
      assert s.(latched := false) == s;
    case CutRound(ops, cut) => StepWrite(p, s, ops, cut, true);
    case RollSegment => StepRoll(p, s, false);
    case FailRoll(installed) => if installed { StepRoll(p, s, true); } else { StepLatch(p, s); }
    case Latch => StepLatch(p, s);
    case ApplyRecord => StepApply(p, s);
    case Publish => StepPublish(p, s);
    case Unlock => StepLockChange(p, s, Free);
    case Acknowledge => StepAcknowledge(p, s);
    case Enforce(shard) => StepLockChange(p, s, Held(shard, false, false));
    case Evict(key) => StepEvict(p, s, key);
    case CountEviction => StepCountEviction(p, s);
    case Expire(key) => StepExpire(p, s, key);
    case Restart(shards, to) => PowerIsPositive(shards); StepRestart(p, s, shards, to);
    case _ =>
  }

  lemma SnapshotStepInv(p: Platform, s: State, a: Action, s': State)
    requires Inv(p, s) && Step(p, s, a, s') && OfSnapshot(a)
    ensures Inv(p, s')
  {
    hide Inv, RecoverLog, RecoverImage, Enumerates, RebuiltParts, SC.WellFormed, AllEncodable, EncodeOps, Shape, PowerOfTwo,
         AppendCut, Roll, Install, RemoveSnapshot, RemoveOldestSegment, Flatten, Repeat, Lowest, ApplyOp;
    match a
    case BeginCapture => StepBeginCapture(p, s);
    case CaptureShard(items) => StepCapture(p, s, items);
    case FinishCapture => StepFinishCapture(p, s);
    case BeginCompaction => StepBeginCompaction(p, s);
    case Reconstruct(items) => StepReconstruct(p, s, items);
    case FinalImage(parts) => AckedBound(p, s); StepFinalImage(p, s, parts);
    case InstallSnapshot => StepInstall(p, s);
    case DiscardSnapshot => StepEndTask(p, s);
    case DropSnapshot(name) => StepDropSnapshot(p, s, name);
    case DropSegment => StepDropSegment(p, s);
    case EndTask => StepEndTask(p, s);
    case _ =>
  }

  /** Every state of every run satisfies the invariant. */
  lemma {:induction false} RunInv(p: Platform, states: seq<State>, actions: seq<Action>, i: nat)
    requires IsRun(p, states, actions) && i < |states|
    ensures Inv(p, states[i])
  {
    hide Inv, Step;
    if i == 0 {
      InitInv(p, states[0]);
    } else {
      RunInv(p, states, actions, i - 1);
      StepInv(p, states[i - 1], actions[i - 1], states[i]);
    }
  }

  /** Crash safety. Stop any run anywhere and reopen what it left on disk with any
      valid shard count: recovery accepts the directory, and what it rebuilds is,
      at every later time, the live view of a plain replay of a prefix of the
      records issued that contains every acknowledged one. */
  lemma CrashSafe(p: Platform, states: seq<State>, actions: seq<Action>, i: nat, shards: nat, later: int)
    requires IsRun(p, states, actions) && i < |states|
    requires ValidShards(shards) && shards > 0 && states[i].now <= later
    ensures |states[i].disk.history| <= MAX_SEQUENCE
    ensures
      var r := RecoverLog(p, states[i].disk.dir, shards);
      && r.Recovered?
      && states[i].acked <= r.sequence <= |states[i].disk.history|
      && Live(r.image, later) == Live(ReplayTo(states[i].disk.history, r.sequence), later)
  {
    hide DiskOk, MemOk, TaskOk, Step, RecoverLog, ReplayTo, Live, PowerOfTwo;
    RunInv(p, states, actions, i);
    var s := states[i];
    RecoverAccepts(p, s.disk, shards, s.now);
    AgreementIsLiveEquality(RecoverLog(p, s.disk.dir, shards).image, s.disk.history, s.disk.durable, s.now, later);
  }

  lemma StepKeepsAcknowledged(p: Platform, s: State, a: Action, s': State)
    requires Inv(p, s) && Step(p, s, a, s')
    ensures s.acked <= |s.disk.history|
    ensures s.acked <= s'.acked && s.acked <= |s'.disk.history| && s.disk.history[..s.acked] == s'.disk.history[..s.acked]
  {
    hide DiskOk, MemOk, TaskOk, RecoverLog, RecoverImage, Enumerates, RebuiltParts, SC.WellFormed, AllEncodable, EncodeOps, Shape, PowerOfTwo,
         Flatten, Repeat, Lowest, ApplyOp, TornPart, WholeRecords;
    if a.Restart? {
      PowerIsPositive(a.shards);
      StepRestart(p, s, a.shards, a.to);
    }
  }

  /** An acknowledged record keeps its place in the history for good, through every
      later crash. */
  lemma {:induction false} AcknowledgedForever(p: Platform, states: seq<State>, actions: seq<Action>, i: nat, j: nat)
    requires IsRun(p, states, actions) && i <= j < |states|
    ensures states[i].acked <= |states[i].disk.history|
    ensures states[i].acked <= states[j].acked && states[i].acked <= |states[j].disk.history|
    ensures states[i].disk.history[..states[i].acked] == states[j].disk.history[..states[i].acked]
    decreases j
  {
    hide Step, Inv;
    RunInv(p, states, actions, j);
    if i < j {
      AcknowledgedForever(p, states, actions, i, j - 1);
      RunInv(p, states, actions, j - 1);
      StepKeepsAcknowledged(p, states[j - 1], actions[j - 1], states[j]);
      var n := states[i].acked;
      var m := states[j - 1].acked;
      assert states[j - 1].disk.history[..n] == states[j - 1].disk.history[..m][..n];
      assert states[j].disk.history[..n] == states[j].disk.history[..m][..n];
    } else {
      AckedBound(p, states[i]);
    }
  }

  /** Every installed snapshot can be read back, and lacks no live entry of the history
      at the sequences it names, whatever was evicted or expired while it was taken. */
  lemma InstalledLacksNothing(p: Platform, states: seq<State>, actions: seq<Action>, i: nat, name: uint64)
    requires IsRun(p, states, actions) && i < |states| && name in states[i].disk.dir.snapshots
    ensures
      var s := states[i];
      var r := SC.ReadSnapshot(p, s.disk.dir.snapshots[name]);
      && r.Read? && |r.snapshot.sequences| > 0 && |s.disk.history| <= MAX_SEQUENCE
      && Lowest(r.snapshot.sequences) == name && Highest(r.snapshot.sequences) <= |s.disk.history|
      && Faithful(p, r.snapshot, s.disk.history, s.now)
  {
    hide Step, MemOk, TaskOk, LogOk, Reaches, PowerOfTwo, KeyAt, SC.ReadSnapshot, SC.EncodeSnapshot, SC.WellFormed, Faithful, Lowest, Highest;
    RunInv(p, states, actions, i);
    InvBasics(p, states[i]);
    var d := states[i].disk;
    assert SnapOk(p, d, name, states[i].now);
    SC.SnapshotRoundTrip(p, d.snaps[name]);
  }

  /** A finished image is never one its own reader would refuse. */
  lemma FinishedIsReadable(p: Platform, states: seq<State>, actions: seq<Action>, i: nat)
    requires IsRun(p, states, actions) && i < |states| && states[i].task.Ready?
    ensures
      var image := states[i].task.snapshot;
      SC.WellFormed(p, image) && SC.ReadSnapshot(p, SC.EncodeSnapshot(p, image)) == SC.Read(image)
  {
    hide Step, MemOk, DiskOk, PowerOfTwo, CaptureOk, SC.ReadSnapshot, SC.EncodeSnapshot, SC.WellFormed, AllEncodable;
    var s := states[i];
    RunInv(p, states, actions, i);
    InvBasics(p, s);
    FinishedIsWellFormed(p, s, s.task.snapshot, s.task.seen.None? || s.task.seen.value == s.generation);
    SC.SnapshotRoundTrip(p, s.task.snapshot);
  }

  /** No run of the store leads to a directory on which a skewed image would be taken
      as it is, for any shard count and any boundary. */
  lemma NoRunSkews(p: Platform, states: seq<State>, actions: seq<Action>, i: nat, shards: nat, only: Option<nat>, through: uint64)
    requires IsRun(p, states, actions) && i < |states| && shards > 0
    ensures
      var load := LoadSnapshot(p, states[i].disk.dir, shards, only);
      load.Load? && (load.state.Loaded? ==> !SkewTakenAsIs(states[i].disk.dir, load.state, through))
  {
    hide Step, MemOk, TaskOk, DiskOk, LoadSnapshot, SkewTakenAsIs, PowerOfTwo;
    RunInv(p, states, actions, i);
    StoreNeverSkews(p, states[i].disk, shards, only, through, states[i].now);
  }

  // ----- what a caller may rely on -----

  /** No record behind the first `q` is about `k`. */
  predicate LastWord(h: History, q: nat, k: Key) {
    forall i :: q <= i < |h| ==> h[i].key != k
  }

  /** What a lookup finds when `op`, with this sequence, was the last word on its key. */
  function Found(op: Op, sequence: uint64, now: int): Option<Entry> {
    match op
    case Set(_, value, deadline) => if deadline == 0 || now < deadline then Some(Entry(value, deadline, sequence)) else None
    case Delete(_) => None
  }

  lemma LiveLookup(m: Image, k: Key, now: int)
    ensures Lookup(Live(m, now), k)
         == if Lookup(m, k).Some? && DeadlinePassed(Lookup(m, k).value.deadline, now) then None else Lookup(m, k)
  {
  }

  /** Acknowledged once, kept for good. A change acknowledged at some point of a run
      is what recovery finds for its key after a crash at any later point, with any
      valid shard count, as long as no later change of that key was issued: the value
      until its deadline for a `Set`, nothing for a `Delete`. */
  lemma AcknowledgedIsFound(p: Platform, states: seq<State>, actions: seq<Action>, i: nat, j: nat, q: nat, shards: nat, later: int)
    requires IsRun(p, states, actions) && i <= j < |states| && 0 < q <= states[i].acked
    requires ValidShards(shards) && shards > 0 && states[j].now <= later
    ensures q <= |states[i].disk.history| && q <= |states[j].disk.history| <= MAX_SEQUENCE
    ensures
      var op := states[i].disk.history[q - 1];
      var r := RecoverLog(p, states[j].disk.dir, shards);
      && r.Recovered?
      && (LastWord(states[j].disk.history, q, op.key) ==> Lookup(Live(r.image, later), op.key) == Found(op, q, later))
  {
    hide Step, Inv, RecoverLog, Live, ReplayTo, PowerOfTwo;
    AcknowledgedForever(p, states, actions, i, j);
    CrashSafe(p, states, actions, j, shards, later);
    var n := states[i].acked;
    var h := states[j].disk.history;
    var op := states[i].disk.history[q - 1];
    assert op == states[i].disk.history[..n][q - 1] == h[..n][q - 1] == h[q - 1];
    var r := RecoverLog(p, states[j].disk.dir, shards);
    if LastWord(h, q, op.key) {
      ReplayLookup(h, r.sequence, op.key);
      KeyAtQuiet(h, q, r.sequence, op.key);
      LiveLookup(ReplayTo(h, r.sequence), op.key, later);
    }
  }

  /** Nothing but a write changes what recovery finds: rolls, captures, expiry,
      eviction, installing a snapshot, pruning and recovery itself leave the recovered
      sequence and the live view alone. */
  lemma OnlyWritesChangeRecovery(p: Platform, s: State, a: Action, s': State, shards: nat, later: int)
    requires Inv(p, s) && Step(p, s, a, s') && !a.WriteRound? && !a.CutRound?
    requires shards > 0 && s'.now <= later
    ensures
      var r := RecoverLog(p, s.disk.dir, shards);
      var r' := RecoverLog(p, s'.disk.dir, shards);
      r.Recovered? && r'.Recovered? && r.sequence == r'.sequence && Live(r.image, later) == Live(r'.image, later)
  {
    hide Step, DiskOk, MemOk, TaskOk, RecoverLog, ReplayTo, Live, PowerOfTwo;
    StepInv(p, s, a, s');
    SameDurable(p, s, a, s');
    RecoverAccepts(p, s.disk, shards, s.now);
    RecoverAccepts(p, s'.disk, shards, s'.now);
    var n := s.disk.durable;
    AgreementIsLiveEquality(RecoverLog(p, s.disk.dir, shards).image, s.disk.history, n, s.now, later);
    AgreementIsLiveEquality(RecoverLog(p, s'.disk.dir, shards).image, s'.disk.history, n, s'.now, later);
    SameReplayTo(s.disk.history, s'.disk.history, n);
  }

  lemma {:induction false} SameReplayTo(h: History, h': History, n: nat)
    requires n <= |h| <= MAX_SEQUENCE && n <= |h'| <= MAX_SEQUENCE && h[..n] == h'[..n]
    ensures ReplayTo(h, n) == ReplayTo(h', n)
  {
    if n > 0 {
      assert h[n - 1] == h[..n][n - 1] == h'[..n][n - 1] == h'[n - 1];
      assert h[..n - 1] == h[..n][..n - 1] == h'[..n][..n - 1] == h'[..n - 1];
      SameReplayTo(h, h', n - 1);
    }
  }

  lemma SameDurable(p: Platform, s: State, a: Action, s': State)
    requires Inv(p, s) && Step(p, s, a, s') && !a.WriteRound? && !a.CutRound?
    ensures s.now <= s'.now && s'.disk.durable == s.disk.durable <= |s.disk.history| && s.disk.durable <= |s'.disk.history|
    ensures s.disk.history[..s.disk.durable] == s'.disk.history[..s.disk.durable]
  {
    hide DiskOk, MemOk, TaskOk, RecoverLog, RecoverImage, Enumerates, RebuiltParts, SC.WellFormed, AllEncodable, EncodeOps, Shape, PowerOfTwo,
         Flatten, Repeat, Lowest, ApplyOp, TornPart, WholeRecords;
    if a.Restart? {
      PowerIsPositive(a.shards);
      StepRestart(p, s, a.shards, a.to);
    }
  }

  lemma AckedBound(p: Platform, s: State)
    requires Inv(p, s)
    ensures s.acked <= s.published <= |s.disk.history| <= MAX_SEQUENCE
  {
  }
}
