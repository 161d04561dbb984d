/** A directory after recovery, and after the store has written to it again. */
module Reopening {
  import opened Base
  import opened Replay
  import opened Listing
  import opened Frames
  import opened WalCodec
  import opened SegmentRecovery
  import opened Recovery
  import opened DiskLayout
  import opened RecoveryCorrectness
  import opened RecoveryProperties
  import opened Damage
  import opened Skew
  import SC = SnapshotCodec

  // ----- a snapshot without a log -----

  /** Without segments recovery takes a snapshot exactly when all its shards stand at one
      sequence and there is a next one; it then installs the empty segment of that next
      sequence and touches nothing else. */
  lemma SnapshotAlone(p: Platform, dir: Directory, s: SC.Snapshot, shards: nat)
    requires shards > 0 && Newest(p, dir, s) && dir.segments == map[]
    ensures |s.sequences| > 0
    ensures
      var r := RecoverLog(p, dir, shards);
      var at := s.sequences[0];
      if !AllEqual(s.sequences) then r == RecoveryRefused(SequenceGap)
      else if at == MAX_SEQUENCE then r == RecoveryRefused(SequenceSpaceExhausted)
      else r == Recovered(ImageOf(p, shards, None, s.items), at, 8, Directory(dir.snapshots, map[at + 1 := SegmentHeader()]))
  {
    hide LoadSnapshot, SegmentHeader, ImageOf, Newest, Lowest, Highest, AllEqual;
    NewestLoads(p, dir, s, shards, None);
    NoNames(dir);
    BoundsOfEqual(s.sequences);
  }

  predicate AllEqual(sequences: seq<uint64>) { forall i, j :: 0 <= i < j < |sequences| ==> sequences[i] == sequences[j] }

  lemma BoundsOfEqual(sequences: seq<uint64>)
    requires |sequences| > 0
    ensures Lowest(sequences) == Highest(sequences) <==> AllEqual(sequences)
    ensures AllEqual(sequences) ==> Lowest(sequences) == sequences[0]
  {
    hide Lowest, Highest;
    assert forall i :: 0 <= i < |sequences| ==> sequences[i] in sequences;
    assert Lowest(sequences) in sequences && Highest(sequences) in sequences;
  }

  lemma NoNames(dir: Directory)
    requires dir.segments == map[]
    ensures SegmentNames(dir) == []
  {
    AscendingIsUnique([], dir.segments.Keys);
  }

  // ----- writing after recovery -----

  /** The name of the segment recovery leaves open for writing. */
  function OpenName(dir: Directory): SegmentName
    requires SegmentNames(dir) != []
  {
    SegmentNames(dir)[|SegmentNames(dir)| - 1]
  }

  /** The directory after `ops` have been appended to the open segment. */
  function Appended(p: Platform, dir: Directory, sequence: uint64, ops: seq<Op>): Directory
    requires AllEncodable(ops) && sequence + |ops| <= MAX_SEQUENCE
  {
    var names := SegmentNames(dir);
    if names == [] then dir
    else
      var name := names[|names| - 1];
      assert name in names;
      dir.(segments := dir.segments[name := dir.segments[name] + EncodeOps(p, sequence, ops)])
  }

  lemma SameKeys(dir: Directory, dir': Directory)
    requires dir.segments.Keys == dir'.segments.Keys
    ensures SegmentNames(dir) == SegmentNames(dir') && Present(dir', SegmentNames(dir))
  {
    hide Ascending;
  }

  /** A written segment under a name that is not its first record's. */
  lemma WrongName(p: Platform, base: nat, ops: seq<Op>, name: uint64, final: bool)
    requires AllEncodable(ops) && ops != [] && base + |ops| <= MAX_SEQUENCE && name != base + 1
    ensures WalkSegment(p, SegmentFile(p, base, ops), name, final, MAX_SEQUENCE, base) == Refused(WrongFirstSequence, 8)
  {
    hide EncodeBody, EncodeFrame, ReadFrame, Judge, SegmentHeader, EncodeOps;
    var body := EncodeBody(base + 1, ops[0]);
    assert ops == [ops[0]] + ops[1..];
    EncodeOpsFirst(p, base, ops[0], ops[1..]);
    FirstJudged(base, ops[0], name);
    BadFields(p, base, [], body, EncodeOps(p, base + 1, ops[1..]), name, final, MAX_SEQUENCE);
    EmptyFile(p, base);
    assert SegmentHeader() + (EncodeFrame(p, body) + EncodeOps(p, base + 1, ops[1..])) == SegmentFile(p, base, ops);
  }

  lemma EmptyFile(p: Platform, base: nat)
    requires base <= MAX_SEQUENCE
    ensures SegmentFile(p, base, []) == SegmentHeader() && |SegmentHeader()| == 8
  {
  }

  lemma FirstJudged(base: nat, op: Op, name: uint64)
    requires Encodable(op) && base < MAX_SEQUENCE && name != base + 1
    ensures Judge(EncodeBody(base + 1, op), name, MAX_SEQUENCE, base, true) == Reject(WrongFirstSequence)
  {
    hide FixedPart, Judge;
    JudgeTable(if op.Set? then OP_SET else OP_DELETE, |op.key|, DeadlineOf(op), base + 1, op.key + ValueOf(op), name, MAX_SEQUENCE, base, true);
  }

  /** The last segment after recovery and another round of writing. */
  lemma LastAgain(p: Platform, file: Bytes, name: uint64, last: uint64, ops: seq<Op>)
    requires WalkSegment(p, file, name, true, MAX_SEQUENCE, last).Walked? && AllEncodable(ops) && ops != []
    requires last + |WalkSegment(p, file, name, true, MAX_SEQUENCE, last).ops| + |ops| <= MAX_SEQUENCE
    ensures
      var w := WalkSegment(p, file, name, true, MAX_SEQUENCE, last);
      var again := WalkSegment(p, FileAfter(file, w) + EncodeOps(p, last + |w.ops|, ops), name, true, MAX_SEQUENCE, last);
      && (w.offset > 8 <==> w.ops != [])
      && (if w.ops != [] || name == last + 1 then again.Walked? && again.ops == w.ops + ops
          else again == Refused(WrongFirstSequence, 8))
  {
    hide WalkSegment, EncodeOps, SegmentHeader, Encodable;
    var w := WalkSegment(p, file, name, true, MAX_SEQUENCE, last);
    WalkedHolds(p, file, name, true, last);
    OffsetOfKept(p, file, name, last);
    AppendAfterRecovery(p, last, w.ops, ops);
    if w.ops != [] || name == last + 1 {
      WalkIntact(p, last, w.ops + ops, name, true, MAX_SEQUENCE);
    } else {
      assert w.ops + ops == ops;
      WrongName(p, last, ops, name, true);
    }
  }

  lemma OffsetOfKept(p: Platform, file: Bytes, name: uint64, last: uint64)
    requires WalkSegment(p, file, name, true, MAX_SEQUENCE, last).Walked?
    ensures
      var w := WalkSegment(p, file, name, true, MAX_SEQUENCE, last);
      w.offset > 8 <==> w.ops != []
  {
    hide WalkFrom, HeaderFault, EncodeRecord, Encodable;
    WalkCanonical(p, file, name, true, MAX_SEQUENCE, HEADER_SIZE, last, true);
    var w := WalkSegment(p, file, name, true, MAX_SEQUENCE, last);
    if w.ops != [] { assert |EncodeOps(p, last, w.ops)| >= RecordSize(w.ops[0]); }
  }

  /** The walk over the whole log after that. */
  lemma {:induction false} WalkAgain(p: Platform, dir: Directory, dir': Directory, names: seq<SegmentName>, index: nat, last: uint64, ops: seq<Op>)
    requires index < |names| && Present(dir, names) && Present(dir', names) && StrictlyAscending(names) && AllEncodable(ops) && ops != []
    requires WalkSegments(p, dir, names, index, last, MAX_SEQUENCE, true).Walked?
    requires last + |WalkSegments(p, dir, names, index, last, MAX_SEQUENCE, true).ops| + |ops| <= MAX_SEQUENCE
    requires
      var w := WalkSegments(p, dir, names, index, last, MAX_SEQUENCE, true);
      var name := names[|names| - 1];
      dir'.segments[name] == FileAfter(dir.segments[name], w) + EncodeOps(p, last + |w.ops|, ops)
    requires forall i :: 0 <= i < |names| - 1 ==> dir'.segments[names[i]] == dir.segments[names[i]]
    ensures
      var w := WalkSegments(p, dir, names, index, last, MAX_SEQUENCE, true);
      var again := WalkSegments(p, dir', names, index, last, MAX_SEQUENCE, true);
      if w.offset > 8 || names[|names| - 1] == last + |w.ops| + 1 then again.Walked? && again.ops == w.ops + ops
      else again == Refused(WrongFirstSequence, 8)
    decreases |names| - index
  {
    hide WalkSegment, EncodeOps, AllEncodable;
    var final := index + 1 == |names|;
    var step := WalkSegment(p, dir.segments[names[index]], names[index], final, MAX_SEQUENCE, last);
    if final {
      LastAgain(p, dir.segments[names[index]], names[index], last, ops);
    } else {
      WalkAgain(p, dir, dir', names, index + 1, last + |step.ops|, ops);
      var rest := WalkSegments(p, dir, names, index + 1, last + |step.ops|, MAX_SEQUENCE, true);
      assert step.ops + (rest.ops + ops) == (step.ops + rest.ops) + ops;
    }
  }

  /** What recovery returned, in terms of the walk it made. */
  ghost predicate WalkedTo(p: Platform, dir: Directory, shards: nat, r: Recovery, state: SnapshotState, image: Image, start: nat, w: Walk) {
    var names := SegmentNames(dir);
    && shards > 0 && ValidState(state, shards) && r.Recovered? && w.Walked?
    && start < |names| && names[0] <= (if state.Loaded? then FirstRequired(state.lowest) else 1)
    && start == (if state.Loaded? then LastAtMost(names, FirstRequired(state.lowest)) else 0)
    && Before(names[start]) + |w.ops| == r.sequence && r.offset == w.offset
    && w == WalkSegments(p, dir, names, start, Before(names[start]), MAX_SEQUENCE, true)
    && r.image == Fold(p, FilterFor(state, shards, None), image, w.ops, Before(names[start]))
    && (state.Loaded? ==> state.highest <= r.sequence)
    && names[|names| - 1] in dir.segments && w.offset <= |dir.segments[names[|names| - 1]]|
    && r.dir == dir.(segments := dir.segments[names[|names| - 1] := FileAfter(dir.segments[names[|names| - 1]], w)])
  }

  lemma AcceptedWalk(p: Platform, dir: Directory, shards: nat) returns (state: SnapshotState, image: Image, start: nat, w: Walk)
    requires shards > 0 && SegmentNames(dir) != [] && RecoverLog(p, dir, shards).Recovered?
    ensures LoadSnapshot(p, dir, shards, None) == Load(state, image)
    ensures WalkedTo(p, dir, shards, RecoverLog(p, dir, shards), state, image, start, w)
  {
    hide LoadSnapshot, WalkSegments, Fold, LastAtMost, SegmentNames;
    var names := SegmentNames(dir);
    state, image := LoadSnapshot(p, dir, shards, None).state, LoadSnapshot(p, dir, shards, None).image;
    start := if state.Loaded? then LastAtMost(names, FirstRequired(state.lowest)) else 0;
    w := WalkSegments(p, dir, names, start, Before(names[start]), MAX_SEQUENCE, true);
    assert names[|names| - 1] in names;
  }

  /** Every record is applied. */
  function Everything(shards: nat): Filter { Filter(shards, Everywhere(0), None) }

  /** Records past what an image covers are all applied. */
  lemma {:induction false} AllApply(p: Platform, f: Filter, m: Image, ops: seq<Op>, base: nat)
    requires ValidFilter(f) && f.only.None? && base + |ops| <= MAX_SEQUENCE && forall k :: FloorOf(p, f, k) <= base
    ensures Fold(p, f, m, ops, base) == Fold(p, Everything(f.shards), m, ops, base)
    decreases |ops|
  {
    hide ApplyOp, FloorOf;
    if ops != [] {
      AllApply(p, f, m, ops[..|ops| - 1], base);
      assert FloorOf(p, f, ops[|ops| - 1].key) <= base;
      NoFloor(p, f.shards, ops[|ops| - 1].key);
    }
  }

  lemma NoFloor(p: Platform, shards: nat, k: Key)
    requires shards > 0
    ensures FloorOf(p, Everything(shards), k) == 0
  {
  }

  lemma FloorAtMost(p: Platform, state: SnapshotState, shards: nat, bound: nat, k: Key)
    requires ValidState(state, shards)
    requires state.Loaded? ==> |state.sequences| > 0 && state == StateOf(state.sequences, shards) && state.highest <= bound
    ensures FloorOf(p, FilterFor(state, shards, None), k) <= bound
  {
    hide Lowest, Highest;
    if state.Loaded? {
      if state.perShard { assert state.sequences[ShardOf(p, shards, k)] in state.sequences; }
      assert Lowest(state.sequences) in state.sequences;
    }
  }

  /** A loaded state is that of a header. */
  lemma LoadedState(p: Platform, dir: Directory, shards: nat)
    requires shards > 0 && LoadSnapshot(p, dir, shards, None).Load?
    ensures
      var state := LoadSnapshot(p, dir, shards, None).state;
      state.Loaded? ==> |state.sequences| > 0 && state == StateOf(state.sequences, shards)
  {
    hide SC.ReadSnapshot, ImageOf, SC.WellFormed, Lowest, Highest;
    var names := SnapshotNames(dir);
    if names != [] {
      assert names[|names| - 1] in names;
      SC.SnapshotCanonical(p, dir.snapshots[names[|names| - 1]]) by { assert SC.ReadSnapshot(p, dir.snapshots[names[|names| - 1]]).Read?; }
      SnapshotHasShards(p, SC.ReadSnapshot(p, dir.snapshots[names[|names| - 1]]).snapshot);
    }
  }

  /** The two outcomes of recovering a second time. */
  ghost predicate Continued(p: Platform, r: Recovery, ops: seq<Op>, shards: nat, again: Recovery)
    requires shards > 0 && r.Recovered? && r.sequence + |ops| <= MAX_SEQUENCE
  {
    && again.Recovered? && again.sequence == r.sequence + |ops|
    && again.image == Fold(p, Everything(shards), r.image, ops, r.sequence)
  }

  lemma AgainBehindLog(p: Platform, dir: Directory, shards: nat, ops: seq<Op>)
    requires shards > 0 && SegmentNames(dir) != [] && RecoverLog(p, dir, shards).Recovered? && AllEncodable(ops) && ops != []
    requires RecoverLog(p, dir, shards).sequence + |ops| <= MAX_SEQUENCE
    ensures
      var r := RecoverLog(p, dir, shards);
      && SegmentNames(r.dir) == SegmentNames(dir)
      && var again := RecoverLog(p, Appended(p, r.dir, r.sequence, ops), shards);
         if r.offset > 8 || OpenName(r.dir) == r.sequence + 1 then Continued(p, r, ops, shards, again)
         else again == RecoveryRefused(WrongFirstSequence)
  {
    hide LoadSnapshot, WalkSegments, Fold, LastAtMost, SegmentNames, EncodeOps, AllEncodable, FileAfter, Lowest, Highest, FilterFor;
    var r := RecoverLog(p, dir, shards);
    var state, image, start, w := AcceptedWalk(p, dir, shards);
    var names := SegmentNames(dir);
    assert names[|names| - 1] in names;
    SameKeys(dir, r.dir);
    var dir' := Appended(p, r.dir, r.sequence, ops);
    SameKeys(dir, dir');
    SameSnapshots(p, dir, dir', shards);
    WalkAgain(p, dir, dir', names, start, Before(names[start]), ops);
    LoadedState(p, dir, shards);
    FoldAppend(p, FilterFor(state, shards, None), image, w.ops, ops, Before(names[start]));
    AllNew(p, state, shards, r.image, ops, r.sequence);
  }

  /** Records past everything a snapshot covers are all applied on top of it. */
  lemma AllNew(p: Platform, state: SnapshotState, shards: nat, m: Image, ops: seq<Op>, base: nat)
    requires ValidState(state, shards) && base + |ops| <= MAX_SEQUENCE
    requires state.Loaded? ==> |state.sequences| > 0 && state == StateOf(state.sequences, shards) && state.highest <= base
    ensures Fold(p, FilterFor(state, shards, None), m, ops, base) == Fold(p, Everything(shards), m, ops, base)
  {
    hide FloorOf, Fold, Lowest, Highest;
    var f := FilterFor(state, shards, None);
    forall k
      ensures FloorOf(p, f, k) <= base
    {
      FloorAtMost(p, state, shards, base, k);
    }
    AllApply(p, f, m, ops, base);
  }

  lemma AgainAlone(p: Platform, dir: Directory, shards: nat, ops: seq<Op>)
    requires shards > 0 && SegmentNames(dir) == [] && RecoverLog(p, dir, shards).Recovered? && AllEncodable(ops) && ops != []
    requires RecoverLog(p, dir, shards).sequence + |ops| <= MAX_SEQUENCE
    ensures
      var r := RecoverLog(p, dir, shards);
      && SegmentNames(r.dir) == [r.sequence + 1]
      && Continued(p, r, ops, shards, RecoverLog(p, Appended(p, r.dir, r.sequence, ops), shards))
  {
    hide LoadSnapshot, Fold, EncodeOps, AllEncodable, FloorOf, WalkSegment, SegmentHeader;
    var r := RecoverLog(p, dir, shards);
    var name: SegmentName := r.sequence + 1;
    NoKeys(dir);
    AscendingIsUnique([name], r.dir.segments.Keys);
    var dir' := Appended(p, r.dir, r.sequence, ops);
    SameKeys(r.dir, dir');
    SameSnapshots(p, dir, dir', shards);
    LoadedState(p, dir, shards);
    var state := LoadSnapshot(p, dir, shards, None).state;
    assert dir'.segments[name] == SegmentFile(p, r.sequence, ops);
    WalkIntact(p, r.sequence, ops, name, true, MAX_SEQUENCE);
    AllNew(p, state, shards, r.image, ops, r.sequence);
  }

  lemma NoKeys(dir: Directory)
    requires SegmentNames(dir) == []
    ensures dir.segments == map[]
  {
    hide Ascending;
    var names := SegmentNames(dir);
    assert forall x :: x in dir.segments.Keys ==> x in names;
    assert dir.segments.Keys == {};
  }

  lemma {:induction false} WalkEndsAtEnd(p: Platform, dir: Directory, names: seq<SegmentName>, index: nat, last: uint64)
    requires index < |names| && Present(dir, names) && WalkSegments(p, dir, names, index, last, MAX_SEQUENCE, true).Walked?
    ensures
      var w := WalkSegments(p, dir, names, index, last, MAX_SEQUENCE, true);
      w.offset <= |dir.segments[names[|names| - 1]]| && w.offset == |FileAfter(dir.segments[names[|names| - 1]], w)|
    decreases |names| - index
  {
    hide WalkFrom, HeaderFault;
    if index + 1 == |names| {
      WalkCanonical(p, dir.segments[names[index]], names[index], true, MAX_SEQUENCE, HEADER_SIZE, last, true);
    } else {
      var w := WalkSegment(p, dir.segments[names[index]], names[index], false, MAX_SEQUENCE, last);
      WalkEndsAtEnd(p, dir, names, index + 1, last + |w.ops|);
    }
  }

  /** Recovery leaves the writer at the end of the open segment, torn bytes cut off. */
  lemma OffsetIsEnd(p: Platform, dir: Directory, shards: nat)
    requires shards > 0 && RecoverLog(p, dir, shards).Recovered?
    ensures
      var r := RecoverLog(p, dir, shards);
      SegmentNames(r.dir) != [] && OpenName(r.dir) in r.dir.segments && r.offset == |r.dir.segments[OpenName(r.dir)]|
  {
    hide LoadSnapshot, WalkSegments, Fold, LastAtMost, FileAfter, SegmentNames, SegmentHeader;
    var r := RecoverLog(p, dir, shards);
    if SegmentNames(dir) == [] {
      NoKeys(dir);
      AscendingIsUnique([r.sequence + 1], r.dir.segments.Keys);
    } else {
      var state, image, start, w := AcceptedWalk(p, dir, shards);
      var names := SegmentNames(dir);
      assert names[|names| - 1] in names;
      SameKeys(dir, r.dir);
      WalkEndsAtEnd(p, dir, names, start, Before(names[start]));
    }
  }

  /** Writing goes on where recovery left off. Whatever a directory held, once `recoverLog`
      has accepted it and records have been appended to the segment it left open, a
      second recovery takes it through the last of them, all applied to the first recovery's
      image, if and only if the open segment was not empty or is named for the next
      sequence. Otherwise the second recovery refuses it. */
  lemma ReopenAfterWriting(p: Platform, dir: Directory, shards: nat, ops: seq<Op>)
    requires shards > 0 && RecoverLog(p, dir, shards).Recovered? && AllEncodable(ops) && ops != []
    requires RecoverLog(p, dir, shards).sequence + |ops| <= MAX_SEQUENCE
    ensures
      var r := RecoverLog(p, dir, shards);
      && SegmentNames(r.dir) != []
      && var again := RecoverLog(p, Appended(p, r.dir, r.sequence, ops), shards);
         if r.offset > 8 || OpenName(r.dir) == r.sequence + 1 then Continued(p, r, ops, shards, again)
         else again == RecoveryRefused(WrongFirstSequence)
  {
    hide RecoverLog, SegmentNames, EncodeOps, AllEncodable, Appended, Continued;
    if SegmentNames(dir) == [] {
      AgainAlone(p, dir, shards, ops);
    } else {
      AgainBehindLog(p, dir, shards, ops);
    }
  }

  /** A directory on which writing does not go on: an empty last segment under the wrong
      name is accepted, and refused as soon as it holds a record. */
  lemma WrongNameExample(p: Platform, shards: nat, op: Op) returns (dir: Directory)
    requires shards > 0 && Encodable(op)
    ensures RecoverLog(p, dir, shards).Recovered? && RecoverLog(p, dir, shards).sequence == 0 && AllEncodable([op])
    ensures RecoverLog(p, Appended(p, RecoverLog(p, dir, shards).dir, 0, [op]), shards) == RecoveryRefused(WrongFirstSequence)
  {
    hide RecoverLog, Appended, EncodeOps;
    dir := TwoEmpty();
    TwoEmptyRecovers(p, shards);
    ReopenAfterWriting(p, dir, shards, [op]);
  }

  function TwoEmpty(): Directory { Directory(map[], map[1 := SegmentHeader(), 3 := SegmentHeader()]) }

  lemma TwoEmptyRecovers(p: Platform, shards: nat)
    requires shards > 0
    ensures RecoverLog(p, TwoEmpty(), shards) == Recovered(map[], 0, 8, TwoEmpty()) && SegmentNames(TwoEmpty()) == [1, 3]
  {
    hide SegmentHeader, WalkSegment, Ascending;
    var dir := TwoEmpty();
    AscendingIsUnique([], dir.snapshots.Keys);
    AscendingIsUnique([1, 3], dir.segments.Keys);
    EmptyFile(p, 0);
    WalkIntact(p, 0, [], 1, false, MAX_SEQUENCE);
    WalkIntact(p, 0, [], 3, true, MAX_SEQUENCE);
    assert dir.segments[3 := SegmentHeader()] == dir.segments;
  }

  /** No directory of a store is like that. */
  lemma StoreContinues(p: Platform, d: Disk, shards: nat, now: int)
    requires DiskOk(p, d, now) && shards > 0
    ensures
      var r := RecoverLog(p, d.dir, shards);
      r.Recovered? && SegmentNames(r.dir) != [] && (r.offset > 8 || OpenName(r.dir) == r.sequence + 1)
  {
    hide LoadSnapshot, WalkSegments, Fold, LastAtMost, SegmentNames, AllEncodable, TornTail, SnapOk, Reaches, FileOf, Lowest, Highest, RecoverLog,
         EncodeOps, FileAfter, Rebuilds;
    RecoverAccepts(p, d, shards, now);
    NamesOf(p, d);
    var r := RecoverLog(p, d.dir, shards);
    var state, image, start, w := AcceptedWalk(p, d.dir, shards);
    SameKeys(d.dir, r.dir);
    WalkRest(p, d, start);
    var j := |d.firsts| - 1;
    SegmentFacts(p, d, j);
    EncodeOpsSize(p, Before(d.firsts[j]), OpsOf(d, j));
  }
}
