/** Segment sizes over whole runs: across cleanup, crashes and reopenings. */
module Sizing {
  import opened Base
  import opened Replay
  import opened Slices
  import opened WalCodec
  import opened SegmentRecovery
  import opened Recovery
  import opened DiskLayout
  import opened DiskSteps
  import opened Protocol
  import opened ProtocolInvariant
  import opened ProtocolSteps
  import opened CrashSafety
  import opened Writer
  import SC = SnapshotCodec

  /** Removing the oldest segment touches no other. */
  lemma RemoveGrown(d: Disk, size: nat)
    requires Shape(d) && |d.firsts| > 1 && Shape(RemoveOldestSegment(d))
    ensures GrownWithin(d, RemoveOldestSegment(d), size)
  {
    hide AllEncodable, SizedOps;
    var d' := RemoveOldestSegment(d);
    forall j | 0 <= j < |d'.firsts|
      ensures Untouched(d, d', j)
    {
      Extent(d, j + 1);
      Extent(d', j);
      assert SameSegmentAs(d, j + 1, d', j);
    }
  }

  /** Forgetting what never became durable touches no whole record. */
  lemma TrimGrown(d: Disk, d': Disk, size: nat)
    requires Shape(d) && Shape(d') && d'.firsts == d.firsts && d'.durable == d.durable && d'.history == d.history[..d.durable]
    ensures GrownWithin(d, d', size)
  {
    hide AllEncodable, SizedOps;
    forall j | 0 <= j < |d'.firsts|
      ensures Untouched(d, d', j)
    {
      Extent(d, j);
      Extent(d', j);
      SliceOfPrefix(d.history, d.durable, Before(d.firsts[j]), EndOf(d, j));
      assert SameSegmentAs(d, j, d', j);
    }
  }

  lemma SameRecordsGrown(d: Disk, d': Disk, size: nat)
    requires Shape(d) && d'.firsts == d.firsts && d'.durable == d.durable && d'.history == d.history
    ensures Shape(d') && GrownWithin(d, d', size)
  {
    hide AllEncodable, SizedOps;
    forall j | 0 <= j < |d'.firsts|
      ensures Untouched(d, d', j)
    {
      assert SameSegmentAs(d, j, d', j);
    }
  }

  /** A write action whose round was planned as `PlanRound` does. */
  predicate PlannedWithin(s: State, a: Action, size: nat) {
    a.WriteRound? || a.CutRound? ==>
      && Shape(s.disk) && a.ops != []
      && HEADER_SIZE + TotalSize(OpsOf(s.disk, |s.disk.firsts| - 1)) + TotalSize(a.ops[..|a.ops| - 1]) <= size
  }

  lemma WriteStepGrown(p: Platform, s: State, a: Action, s': State, size: nat)
    requires Inv(p, s) && Inv(p, s') && Step(p, s, a, s') && PlannedWithin(s, a, size) && (a.WriteRound? || a.CutRound?)
    ensures Shape(s.disk) && Shape(s'.disk) && GrownWithin(s.disk, s'.disk, size)
  {
    hide MemOk, TaskOk, SnapsBelow, SnapOk, Reaches, LogOk, EncodeOps, AllEncodable, Shape, PowerOfTwo, TornPart, WholeRecords, TotalSize, OpsOf, GrownWithin;
    InvBasics(p, s);
    InvBasics(p, s');
    var cut := if a.WriteRound? then |EncodeOps(p, s.disk.durable, a.ops)| else a.cut;
    AppendGrown(p, s.disk, a.ops, cut, size);
  }

  lemma RollStepGrown(p: Platform, s: State, s': State, size: nat)
    requires Inv(p, s) && Inv(p, s') && Quiet(s) && s.published < MAX_SEQUENCE && s'.disk == Roll(s.disk)
    ensures Shape(s.disk) && Shape(s'.disk) && GrownWithin(s.disk, s'.disk, size)
  {
    hide MemOk, TaskOk, SnapsBelow, SnapOk, Reaches, LogOk, Shape, PowerOfTwo, GrownWithin;
    InvBasics(p, s);
    InvBasics(p, s');
    RollGrown(p, s.disk, size);
  }

  /** No step but a write makes a segment grow. */
  lemma OtherStepGrown(p: Platform, s: State, a: Action, s': State, size: nat)
    requires Inv(p, s) && Inv(p, s') && Step(p, s, a, s') && !a.WriteRound? && !a.CutRound?
    ensures Shape(s.disk) && Shape(s'.disk) && GrownWithin(s.disk, s'.disk, size)
  {
    hide MemOk, TaskOk, SnapsBelow, DiskOk, RecoverLog, RecoverImage, Enumerates, RebuiltParts, SC.WellFormed, AllEncodable, EncodeOps, Shape,
         PowerOfTwo, Flatten, Repeat, Lowest, ApplyOp, AppendCut, Roll, GrownWithin, SC.EncodeSnapshot;
    InvBasics(p, s);
    InvBasics(p, s');
    match a {
      case RollSegment => RollStepGrown(p, s, s', size);
      case BeginCompaction => RollStepGrown(p, s, s', size);
      case FailRoll(installed) => if installed { RollStepGrown(p, s, s', size); } else { GrownSame(s.disk, size); }
      case DropSegment => RemoveGrown(s.disk, size);
      case Restart(shards, to) =>
        PowerIsPositive(shards);
        StepRestart(p, s, shards, to);
        TrimGrown(s.disk, s'.disk, size);
      case _ => SameRecordsGrown(s.disk, s'.disk, size);
    }
  }

  ghost predicate AllPlanned(states: seq<State>, actions: seq<Action>, a: nat, b: nat, size: nat)
    requires a <= b <= |actions| && |states| == |actions| + 1
  {
    forall i :: a <= i < b ==> PlannedWithin(states[i], actions[i], size)
  }

  /** While one size is in force, from state `a` to state `b`, through rolls, captures,
      cleanup, crashes and reopenings: every segment is as it was in state `a`, or within
      the size without its last record. */
  lemma {:induction false} RunGrown(p: Platform, states: seq<State>, actions: seq<Action>, a: nat, b: nat, size: nat)
    requires IsRun(p, states, actions) && a <= b < |states| && AllPlanned(states, actions, a, b, size)
    ensures Shape(states[a].disk) && Shape(states[b].disk) && GrownWithin(states[a].disk, states[b].disk, size)
    decreases b
  {
    hide Inv, Step, Init, Shape, GrownWithin, PlannedWithin;
    RunInv(p, states, actions, b);
    if a == b {
      InvBasics(p, states[b]);
      GrownSame(states[b].disk, size);
    } else {
      RunInv(p, states, actions, b - 1);
      RunGrown(p, states, actions, a, b - 1, size);
      var s, act, s' := states[b - 1], actions[b - 1], states[b];
      if act.WriteRound? || act.CutRound? {
        WriteStepGrown(p, s, act, s', size);
      } else {
        OtherStepGrown(p, s, act, s', size);
      }
      GrownTwice(states[a].disk, s.disk, s'.disk, size);
    }
  }

  /** A store that has always run with one size: in every reachable state every segment
      is within it without its last record. */
  lemma RunSized(p: Platform, states: seq<State>, actions: seq<Action>, b: nat, size: nat)
    requires IsRun(p, states, actions) && b < |states| && AllPlanned(states, actions, 0, b, size)
    ensures Shape(states[b].disk) && Sized(states[b].disk, size)
  {
    hide Step, Shape, GrownWithin, Sized, PlannedWithin;
    RunGrown(p, states, actions, 0, b, size);
    AllSized(states[b].disk, size);
  }
}
