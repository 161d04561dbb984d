/** The other half of safety: what has begun can be finished. From every reachable state
    the writer can apply and answer what is in the log, and a snapshot can be taken,
    installed and cleaned up after. */
module Progress {
  import opened Base
  import opened Replay
  import opened Recovery
  import opened DiskLayout
  import opened DiskSteps
  import opened Protocol
  import opened ProtocolInvariant
  import opened ProtocolSteps
  import opened Capture
  import opened CrashSafety
  import opened WriterRefinement
  import SC = SnapshotCodec

  /** One step first, then the rest. */
  lemma LeadsFirst(p: Platform, s: State, a: Action, mid: State, more: seq<Action>, s': State)
    requires Step(p, s, a, mid) && Leads(p, mid, more, s')
    ensures Leads(p, s, [a] + more, s')
  {
    hide Step;
    assert [] + [a] == [a];
    LeadsNext(p, s, [], s, a, mid);
    LeadsMore(p, s, [a], mid, more, s');
  }

  // ----- the writer -----

  function LockRank(l: Lock): nat {
    if l.Free? then 1 else if l.evicted then 3 else if !l.record then 2 else 0
  }

  /** The next thing the writer does with what it has written. */
  function WriterStep(s: State): Action
    requires !(s.lock.Free? && s.published == |s.disk.history|)
  {
    if s.lock.Free? then ApplyRecord
    else if s.lock.evicted then CountEviction
    else if s.lock.record then Publish
    else Unlock
  }

  lemma WriterMoves(p: Platform, s: State) returns (s': State)
    requires Inv(p, s) && !s.latched && !(s.lock.Free? && s.published == |s.disk.history|)
    ensures Step(p, s, WriterStep(s), s') && Inv(p, s') && !s'.latched && s'.disk == s.disk && s'.task == s.task
    ensures s.published < s'.published || (s.published == s'.published && LockRank(s'.lock) < LockRank(s.lock))
  {
    hide MemOk, DiskOk, SnapsBelow, TaskOk, PowerOfTwo, Shape, ApplyOp;
    InvBasics(p, s);
    s' := Effect(p, s, WriterStep(s));
    StepInv(p, s, WriterStep(s), s');
  }

  /** A store that has not latched can apply and publish every record in its log, and let
      go of its shard. */
  lemma {:induction false} LogIsApplied(p: Platform, s: State) returns (actions: seq<Action>, s': State)
    requires Inv(p, s) && !s.latched
    ensures Leads(p, s, actions, s') && Inv(p, s') && s'.disk == s.disk && s'.task == s.task && Quiet(s')
    decreases |s.disk.history| - s.published, LockRank(s.lock)
  {
    hide Inv, Step, LockRank;
    assert s.published <= |s.disk.history| by { PublishedIsLogged(p, s); }
    if s.lock.Free? && s.published == |s.disk.history| {
      actions, s' := [], s;
    } else {
      var mid := WriterMoves(p, s);
      assert mid.published <= |s.disk.history| by { PublishedIsLogged(p, mid); }
      actions, s' := LogIsApplied(p, mid);
      LeadsFirst(p, s, WriterStep(s), mid, actions, s');
      actions := [WriterStep(s)] + actions;
    }
  }

  lemma PublishedIsLogged(p: Platform, s: State)
    requires Inv(p, s)
    ensures s.acked <= s.published <= |s.disk.history|
  {
    hide MemOk, DiskOk, SnapsBelow, TaskOk;
  }

  /** And then answer every caller with success. */
  lemma {:induction false} CallersAreTold(p: Platform, s: State) returns (actions: seq<Action>, s': State)
    requires Inv(p, s)
    ensures Leads(p, s, actions, s') && Inv(p, s') && s' == s.(acked := s.published)
    decreases s.published - s.acked
  {
    hide Inv, Step, Effect;
    assert s.acked <= s.published by { PublishedIsLogged(p, s); }
    if s.acked == s.published {
      actions, s' := [], s;
    } else {
      var mid := Tell(p, s);
      actions, s' := CallersAreTold(p, mid);
      LeadsFirst(p, s, Acknowledge, mid, actions, s');
      actions := [Acknowledge] + actions;
    }
  }

  lemma Tell(p: Platform, s: State) returns (s': State)
    requires Inv(p, s) && s.acked < s.published
    ensures Step(p, s, Acknowledge, s') && Inv(p, s') && s' == s.(acked := s.acked + 1)
  {
    hide Inv;
    InvBasics(p, s);
    s' := s.(acked := s.acked + 1);
    StepInv(p, s, Acknowledge, s');
  }

  /** Nothing written is left unanswered: in every reachable state of a store that has not
      latched, the writer alone can come to where every record of the history is applied,
      published and acknowledged. */
  lemma EveryWriteCanSucceed(p: Platform, states: seq<State>, actions: seq<Action>, i: nat) returns (more: seq<Action>, s': State)
    requires IsRun(p, states, actions) && i < |states| && !states[i].latched
    ensures Leads(p, states[i], more, s') && Quiet(s') && s'.acked == |s'.disk.history| && s'.disk == states[i].disk
  {
    hide Inv, Step, Init;
    RunInv(p, states, actions, i);
    var first, mid := LogIsApplied(p, states[i]);
    var rest;
    rest, s' := CallersAreTold(p, mid);
    LeadsMore(p, states[i], first, mid, rest, s');
    more := first + rest;
  }

  // ----- listing an image -----

  lemma {:induction false} Listed(m: Image) returns (items: seq<SC.Item>)
    ensures Enumerates(items, m)
    decreases |m|
  {
    if m == map[] {
      items := [];
    } else {
      var k :| k in m;
      var rest := m - {k};
      var before := Listed(rest);
      items := before + [SC.Item(k, m[k])];
      assert items[..|before|] == before;
      assert rest[k := m[k]] == m;
    }
  }

  // ----- a snapshot from memory -----

  /** Shards captured so far, all at the sequence that still stands. */
  predicate AllNow(s: State) {
    s.task.Capturing? && |s.task.sequences| <= s.shards && forall i :: 0 <= i < |s.task.sequences| ==> s.task.sequences[i] == s.published
  }

  lemma CaptureNext(p: Platform, s: State) returns (a: Action, s': State)
    requires Inv(p, s) && AllNow(s) && s.lock.Free? && |s.task.sequences| < s.shards
    ensures Step(p, s, a, s') && Inv(p, s') && AllNow(s') && s' == s.(task := s'.task)
    ensures |s'.task.sequences| == |s.task.sequences| + 1
  {
    hide Inv, PowerOfTwo, Shape, ToImage;
    InvBasics(p, s);
    var items := Listed(ShardPart(p, s.shards, s.mem, |s.task.sequences|));
    a := CaptureShard(items);
    assert s.published <= MAX_SEQUENCE by { PublishedFits(p, s); }
    s' := Effect(p, s, a);
    StepInv(p, s, a, s');
  }

  lemma PublishedFits(p: Platform, s: State)
    requires Inv(p, s)
    ensures s.published <= s.disk.durable <= |s.disk.history| <= MAX_SEQUENCE && s.shards > 0
  {
    hide MemOk, DiskOk, SnapsBelow, TaskOk;
  }

  lemma {:induction false} CaptureAll(p: Platform, s: State) returns (actions: seq<Action>, s': State)
    requires Inv(p, s) && AllNow(s) && s.lock.Free?
    ensures Leads(p, s, actions, s') && Inv(p, s') && AllNow(s') && s' == s.(task := s'.task) && |s'.task.sequences| == s.shards
    decreases s.shards - |s.task.sequences|
  {
    hide Inv, Step;
    if |s.task.sequences| == s.shards {
      actions, s' := [], s;
    } else {
      var a, mid := CaptureNext(p, s);
      actions, s' := CaptureAll(p, mid);
      LeadsFirst(p, s, a, mid, actions, s');
      actions := [a] + actions;
    }
  }

  /** A finished image of the present moment. */
  ghost predicate ReadyNow(s: State) {
    && s.task.Ready? && (s.task.seen.None? || s.task.seen.value == s.generation)
    && |s.task.snapshot.sequences| == s.shards > 0
    && forall i :: 0 <= i < s.shards ==> s.task.snapshot.sequences[i] == s.published
  }

  lemma OneStep(p: Platform, s: State, a: Action, s': State)
    requires Inv(p, s) && Step(p, s, a, s')
    ensures Leads(p, s, [a], s') && Inv(p, s')
  {
    hide Inv, Step;
    StepInv(p, s, a, s');
    LeadsFirst(p, s, a, s', [], s');
    assert [a] + [] == [a];
  }

  lemma ImageFromMemory(p: Platform, s: State) returns (actions: seq<Action>, s': State)
    requires Inv(p, s) && s.task.Idle? && s.lock.Free? && s.generation == 0
    ensures Leads(p, s, actions, s') && Inv(p, s') && s' == s.(task := s'.task) && ReadyNow(s')
  {
    hide Inv, PowerOfTwo, Shape, Leads;
    InvBasics(p, s);
    var begun := s.(task := Capturing([], []));
    OneStep(p, s, BeginCapture, begun);
    var more, captured := CaptureAll(p, begun);
    InvBasics(p, captured);
    s' := Effect(p, captured, FinishCapture);
    OneStep(p, captured, FinishCapture, s');
    LeadsMore(p, begun, more, captured, [FinishCapture], s');
    LeadsMore(p, s, [BeginCapture], begun, more + [FinishCapture], s');
    actions := [BeginCapture] + (more + [FinishCapture]);
  }

  // ----- a snapshot by reconstruction -----

  lemma ImageFromFiles(p: Platform, s: State) returns (actions: seq<Action>, s': State)
    requires Inv(p, s) && s.task.Idle? && Quiet(s) && s.generation != 0 && s.published < MAX_SEQUENCE
    ensures Leads(p, s, actions, s') && Inv(p, s') && s' == s.(task := s'.task, disk := Roll(s.disk)) && ReadyNow(s')
  {
    hide Inv, PowerOfTwo, Shape, Leads, RecoverImage, Roll;
    InvBasics(p, s);
    PublishedFits(p, s);
    var begun := Effect(p, s, BeginCompaction);
    OneStep(p, s, BeginCompaction, begun);
    CompactionNeverRefused(p, begun);
    var items := Listed(RecoverImage(p, begun.disk.dir, begun.shards, None, begun.task.through).image);
    InvBasics(p, begun);
    s' := Effect(p, begun, Reconstruct(items));
    OneStep(p, begun, Reconstruct(items), s');
    LeadsMore(p, s, [BeginCompaction], begun, [Reconstruct(items)], s');
    actions := [BeginCompaction] + [Reconstruct(items)];
  }

  // ----- installing and cleaning up -----

  lemma {:induction false} LowestOfEqual(sequences: seq<uint64>, x: uint64)
    requires |sequences| > 0 && forall i :: 0 <= i < |sequences| ==> sequences[i] == x
    ensures Lowest(sequences) == x
    decreases |sequences|
  {
    var n := |sequences| - 1;
    if n > 0 { LowestOfEqual(sequences[..n], x); }
  }

  lemma InstallNow(p: Platform, s: State) returns (s': State)
    requires Inv(p, s) && ReadyNow(s)
    ensures Step(p, s, InstallSnapshot, s') && Inv(p, s') && s'.task == Cleaning(s.published)
    ensures SC.WellFormed(p, s.task.snapshot) && s'.disk == Install(p, s.disk, s.task.snapshot)
    ensures s' == s.(task := s'.task, disk := s'.disk)
  {
    hide Inv, PowerOfTwo, Shape, SC.WellFormed, Install;
    InvBasics(p, s);
    PublishedFits(p, s);
    assert SC.WellFormed(p, s.task.snapshot) by { ReadyIsWellFormed(p, s); }
    s' := Effect(p, s, InstallSnapshot);
    LowestOfEqual(s.task.snapshot.sequences, s.published);
    StepInv(p, s, InstallSnapshot, s');
  }

  lemma ReadyIsWellFormed(p: Platform, s: State)
    requires Inv(p, s) && s.task.Ready?
    ensures SC.WellFormed(p, s.task.snapshot)
  {
    hide MemOk, DiskOk, SnapsBelow, CaptureOk, SC.WellFormed;
    InvBasics(p, s);
    FinishedIsWellFormed(p, s, s.task.snapshot, s.task.seen.None? || s.task.seen.value == s.generation);
  }

  lemma DropOne(p: Platform, s: State, name: uint64) returns (s': State)
    requires Inv(p, s) && s.task.Cleaning? && name in s.disk.snaps && name != s.task.name
    ensures Step(p, s, DropSnapshot(name), s') && Inv(p, s') && s' == s.(disk := s'.disk)
    ensures s'.disk.snaps == s.disk.snaps - {name} && s'.disk.history == s.disk.history
  {
    hide Inv, Shape;
    InvBasics(p, s);
    s' := Effect(p, s, DropSnapshot(name));
    StepInv(p, s, DropSnapshot(name), s');
  }

  lemma {:induction false} DropOthers(p: Platform, s: State) returns (actions: seq<Action>, s': State)
    requires Inv(p, s) && s.task.Cleaning? && s.task.name in s.disk.snaps
    ensures Leads(p, s, actions, s') && Inv(p, s') && s' == s.(disk := s'.disk)
    ensures s'.disk.snaps == map[s.task.name := s.disk.snaps[s.task.name]] && s'.disk.history == s.disk.history
    decreases |s.disk.snaps|
  {
    hide Inv, Leads, Step;
    if s.disk.snaps.Keys == {s.task.name} {
      actions, s' := [], s;
      assert Leads(p, s, [], s) by { Nowhere(p, s); }
    } else {
      var name :| name in s.disk.snaps && name != s.task.name;
      var mid := DropOne(p, s, name);
      OneFewer(s.disk.snaps, name);
      actions, s' := DropOthers(p, mid);
      LeadsFirst(p, s, DropSnapshot(name), mid, actions, s');
      actions := [DropSnapshot(name)] + actions;
    }
  }

  lemma OneFewer<T, U>(m: map<T, U>, x: T)
    requires x in m
    ensures |m - {x}| < |m|
  {
    assert m.Keys == (m - {x}).Keys + {x};
  }

  lemma Nowhere(p: Platform, s: State)
    ensures Leads(p, s, [], s)
  {
  }

  lemma {:induction false} DropCovered(p: Platform, s: State) returns (actions: seq<Action>, s': State)
    requires Inv(p, s) && s.task.Cleaning? && s.disk.snaps.Keys == {s.task.name}
    ensures Leads(p, s, actions, s') && Inv(p, s') && s' == s.(disk := s'.disk)
    ensures s'.disk.snaps == s.disk.snaps && s'.disk.history == s.disk.history
    ensures |s'.disk.firsts| > 1 ==> s'.disk.firsts[1] > s.task.name
    decreases |s.disk.firsts|
  {
    hide Inv, Shape, Leads;
    if |s.disk.firsts| <= 1 || s.disk.firsts[1] > s.task.name {
      actions, s' := [], s;
      assert Leads(p, s, [], s) by { Nowhere(p, s); }
    } else {
      InvBasics(p, s);
      var mid := Effect(p, s, DropSegment);
      StepInv(p, s, DropSegment, mid);
      actions, s' := DropCovered(p, mid);
      LeadsFirst(p, s, DropSegment, mid, actions, s');
      actions := [DropSegment] + actions;
    }
  }

  /** The directory a snapshot job leaves if nothing fails: that one snapshot, and of the
      segments it covers at most one. */
  ghost predicate CleanedUp(p: Platform, s: State, name: uint64) {
    && s.task.Idle? && s.disk.dir.snapshots.Keys == {name}
    && (|s.disk.firsts| > 1 ==> s.disk.firsts[1] > name)
  }

  lemma InstallAndCleanUp(p: Platform, s: State) returns (actions: seq<Action>, s': State)
    requires Inv(p, s) && ReadyNow(s)
    ensures Leads(p, s, actions, s') && Inv(p, s') && s' == s.(task := Idle, disk := s'.disk)
    ensures SC.WellFormed(p, s.task.snapshot) && s.published <= MAX_SEQUENCE
    ensures s'.disk.snaps == map[s.published := s.task.snapshot] && s'.disk.history == s.disk.history
    ensures |s'.disk.firsts| > 1 ==> s'.disk.firsts[1] > s.published
  {
    hide Inv, Leads, Step, SC.WellFormed;
    PublishedFits(p, s);
    var a := InstallNow(p, s);
    InstalledUnder(p, s);
    var drops, b := DropOthers(p, a);
    var prunes, c := DropCovered(p, b);
    s' := c.(task := Idle);
    Ended(p, c);
    OneStep(p, c, EndTask, s');
    LeadsMore(p, b, prunes, c, [EndTask], s');
    LeadsMore(p, a, drops, b, prunes + [EndTask], s');
    LeadsFirst(p, s, InstallSnapshot, a, drops + (prunes + [EndTask]), s');
    actions := [InstallSnapshot] + (drops + (prunes + [EndTask]));
  }

  lemma Ended(p: Platform, s: State)
    requires Inv(p, s) && s.task.Cleaning?
    ensures Step(p, s, EndTask, s.(task := Idle))
  {
    hide Inv, Shape;
    InvBasics(p, s);
  }

  lemma InstalledUnder(p: Platform, s: State)
    requires ReadyNow(s) && SC.WellFormed(p, s.task.snapshot) && s.published <= MAX_SEQUENCE
    ensures Install(p, s.disk, s.task.snapshot).snaps == s.disk.snaps[s.published := s.task.snapshot]
    ensures Install(p, s.disk, s.task.snapshot).history == s.disk.history
  {
    hide SC.WellFormed;
    LowestOfEqual(s.task.snapshot.sequences, s.published);
  }

  /** A snapshot can always be had: in every reachable state where none is under way and
      the writer is between rounds, the snapshot job can go through to its end, from memory
      or, after an eviction, from the files. It leaves one readable snapshot, of exactly
      the published sequence in every shard, at most one segment it covers, and the rest of
      the store as it was. */
  lemma SnapshotCanComplete(p: Platform, states: seq<State>, actions: seq<Action>, i: nat) returns (more: seq<Action>, s': State)
    requires IsRun(p, states, actions) && i < |states|
    requires states[i].task.Idle? && Quiet(states[i]) && states[i].published < MAX_SEQUENCE
    ensures Leads(p, states[i], more, s') && s' == states[i].(disk := s'.disk)
    ensures CleanedUp(p, s', s'.published) && s'.disk.history == states[i].disk.history
    ensures
      var r := SC.ReadSnapshot(p, s'.disk.dir.snapshots[s'.published]);
      r.Read? && r.snapshot.sequences == Repeat(s'.shards, s'.published)
  {
    hide Inv, Leads, Step, Init, SC.WellFormed, SC.ReadSnapshot;
    var s := states[i];
    RunInv(p, states, actions, i);
    var first, ready;
    if s.generation == 0 { first, ready := ImageFromMemory(p, s); } else { first, ready := ImageFromFiles(p, s); }
    var rest;
    rest, s' := InstallAndCleanUp(p, ready);
    LeadsMore(p, s, first, ready, rest, s');
    more := first + rest;
    OnlySnapshot(p, s', s'.published);
    assert ready.task.snapshot.sequences == Repeat(s'.shards, s'.published);
  }

  lemma OnlySnapshot(p: Platform, s: State, name: uint64)
    requires Inv(p, s) && s.disk.snaps.Keys == {name}
    ensures s.disk.dir.snapshots.Keys == {name} && SC.ReadSnapshot(p, s.disk.dir.snapshots[name]) == SC.Read(s.disk.snaps[name])
  {
    hide MemOk, TaskOk, LogOk, Reaches, SC.ReadSnapshot, SC.EncodeSnapshot, SC.WellFormed, Faithful;
    InvBasics(p, s);
    assert SnapOk(p, s.disk, name, s.now);
    SC.SnapshotRoundTrip(p, s.disk.snaps[name]);
  }
}
