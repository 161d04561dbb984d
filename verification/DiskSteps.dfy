/** The changes a store makes to its directory, one at a time, and the proof that
    each leaves a directory recovery can use. */
module DiskSteps {
  import opened Base
  import opened Replay
  import opened Listing
  import opened Slices
  import opened WalCodec
  import opened SegmentRecovery
  import opened Recovery
  import opened DiskLayout
  import opened RecoveryCorrectness
  import SC = SnapshotCodec

  function LastName(d: Disk): SegmentName
    requires |d.firsts| > 0
  {
    d.firsts[|d.firsts| - 1]
  }

  /** A write of `ops` of which only the first `cut` bytes reach the final segment. */
  function AppendCut(p: Platform, d: Disk, ops: seq<Op>, cut: nat): Disk
    requires Shape(d) && LastName(d) in d.dir.segments
    requires AllEncodable(ops) && d.durable + |ops| <= MAX_SEQUENCE
    requires cut <= |EncodeOps(p, d.durable, ops)|
  {
    var name := LastName(d);
    var bytes := d.dir.segments[name] + EncodeOps(p, d.durable, ops)[..cut];
    d.(dir := d.dir.(segments := d.dir.segments[name := bytes]),
       history := d.history + ops,
       durable := d.durable + WholeRecords(ops, cut),
       tail := TornPart(p, d.durable, ops, cut))
  }

  /** `createSegment`: a new empty segment is renamed into place. */
  function Roll(d: Disk): Disk
    requires d.durable < MAX_SEQUENCE
  {
    var name: SegmentName := d.durable + 1;
    d.(dir := d.dir.(segments := d.dir.segments[name := SegmentHeader()]),
       firsts := if |d.firsts| > 0 && d.firsts[|d.firsts| - 1] == name then d.firsts else d.firsts + [name])
  }

  /** The rename that installs a finished snapshot. */
  function Install(p: Platform, d: Disk, s: SC.Snapshot): Disk
    requires SC.WellFormed(p, s)
  {
    var name := Lowest(s.sequences);
    d.(dir := d.dir.(snapshots := d.dir.snapshots[name := SC.EncodeSnapshot(p, s)]),
       snaps := d.snaps[name := s])
  }

  function RemoveSnapshot(d: Disk, name: uint64): Disk {
    d.(dir := d.dir.(snapshots := d.dir.snapshots - {name}), snaps := d.snaps - {name})
  }

  function RemoveOldestSegment(d: Disk): Disk
    requires |d.firsts| > 0
  {
    d.(dir := d.dir.(segments := d.dir.segments - {d.firsts[0]}), firsts := d.firsts[1..])
  }

  // ----- the log -----

  lemma SameSegment(p: Platform, d: Disk, d': Disk, j: nat, j': nat)
    requires LogOk(p, d) && Shape(d') && j < |d.firsts| && j' < |d'.firsts|
    requires d.firsts[j] == d'.firsts[j'] && EndOf(d, j) == EndOf(d', j')
    requires j + 1 < |d.firsts| && j' + 1 < |d'.firsts|
    requires EndOf(d, j) <= |d.history| && EndOf(d, j) <= |d'.history|
    requires d.history[..EndOf(d, j)] == d'.history[..EndOf(d, j)]
    requires d.firsts[j] in d'.dir.segments ==> d.firsts[j] in d.dir.segments ==> d.dir.segments[d.firsts[j]] == d'.dir.segments[d.firsts[j]]
    requires d.firsts[j] in d'.dir.segments
    ensures SegmentOk(p, d', j')
  {
    hide SegmentFile, AllEncodable, Lists, StrictlyAscending, TornTail;
    SegmentFacts(p, d, j);
    Extent(d', j');
    var e := EndOf(d, j);
    assert OpsOf(d, j) == d.history[..e][Before(d.firsts[j])..];
    assert OpsOf(d', j') == d'.history[..e][Before(d.firsts[j])..];
  }

  lemma AppendShape(p: Platform, d: Disk, ops: seq<Op>, cut: nat)
    requires Shape(d) && d.durable == |d.history| && LastName(d) in d.dir.segments
    requires AllEncodable(ops) && d.durable + |ops| <= MAX_SEQUENCE
    requires cut <= |EncodeOps(p, d.durable, ops)|
    ensures Shape(AppendCut(p, d, ops, cut))
  {
    hide EncodeOps, Encodable, TornPart, StrictlyAscending;
  }

  lemma AppendLastFile(p: Platform, d: Disk, ops: seq<Op>, cut: nat)
    requires LogOk(p, d) && d.tail == [] && d.durable == |d.history|
    requires AllEncodable(ops) && d.durable + |ops| <= MAX_SEQUENCE
    requires SegmentOk(p, d, |d.firsts| - 1)
    requires cut <= |EncodeOps(p, d.durable, ops)|
    ensures Shape(AppendCut(p, d, ops, cut))
    ensures SegmentOk(p, AppendCut(p, d, ops, cut), |d.firsts| - 1)
  {
    hide EncodeOps, Encodable, Lists, StrictlyAscending, SegmentFile, TornTail, TornPart, WholeRecords;
    var j := |d.firsts| - 1;
    var base := Before(d.firsts[j]);
    var n := WholeRecords(ops, cut);
    SegmentFacts(p, d, j);
    AppendShape(p, d, ops, cut);
    var before := OpsOf(d, j);
    CutStream(p, d.durable, ops, cut);
    AppendAfterRecovery(p, base, before, ops[..n]);
    var d' := AppendCut(p, d, ops, cut);
    SliceOfAppend(d.history, ops, base, n);
    assert OpsOf(d', j) == before + ops[..n];
    JoinTail(SegmentFile(p, base, before), EncodeOps(p, d.durable, ops[..n]), TornPart(p, d.durable, ops, cut));
  }

  lemma JoinTail(whole: Bytes, more: Bytes, tail: Bytes)
    ensures (whole + []) + (more + tail) == (whole + more) + tail
  {
  }

  lemma AppendKeepsOthers(p: Platform, d: Disk, ops: seq<Op>, cut: nat, i: nat)
    requires LogOk(p, d) && d.tail == [] && d.durable == |d.history|
    requires AllEncodable(ops) && d.durable + |ops| <= MAX_SEQUENCE
    requires LastName(d) in d.dir.segments && cut <= |EncodeOps(p, d.durable, ops)|
    requires Shape(AppendCut(p, d, ops, cut)) && i + 1 < |d.firsts|
    ensures SegmentOk(p, AppendCut(p, d, ops, cut), i)
  {
    hide EncodeOps, Encodable, SegmentFile, TornTail, TornPart, WholeRecords, AllEncodable, FileOf;
    assert SegmentOk(p, d, i);
    Extent(d, i);
    SameSegment(p, d, AppendCut(p, d, ops, cut), i, i);
  }

  lemma AppendTail(p: Platform, d: Disk, ops: seq<Op>, cut: nat)
    requires Shape(d) && d.durable == |d.history| && LastName(d) in d.dir.segments
    requires AllEncodable(ops) && d.durable + |ops| <= MAX_SEQUENCE
    requires cut <= |EncodeOps(p, d.durable, ops)| && Shape(AppendCut(p, d, ops, cut))
    ensures
      var d' := AppendCut(p, d, ops, cut);
      d'.tail != [] ==> d'.durable < |d'.history| && TornTail(p, d'.tail, d'.durable + 1, d'.history[d'.durable])
  {
    hide EncodeOps, Encodable, TornTail, TornPart, WholeRecords, StrictlyAscending;
    CutStream(p, d.durable, ops, cut);
  }

  /** A write cut anywhere leaves whole records and at most one torn one. */
  lemma AppendCutOk(p: Platform, d: Disk, ops: seq<Op>, cut: nat)
    requires LogOk(p, d) && d.tail == [] && d.durable == |d.history|
    requires AllEncodable(ops) && d.durable + |ops| <= MAX_SEQUENCE
    requires LastName(d) in d.dir.segments
    requires cut <= |EncodeOps(p, d.durable, ops)|
    ensures LogOk(p, AppendCut(p, d, ops, cut))
  {
    hide EncodeOps, AllEncodable, SegmentFile, TornTail, TornPart, WholeRecords, FileOf, StrictlyAscending, Lists;
    var j := |d.firsts| - 1;
    var d' := AppendCut(p, d, ops, cut);
    assert SegmentOk(p, d, j);
    AppendLastFile(p, d, ops, cut);
    AppendTail(p, d, ops, cut);
    assert d'.dir.segments.Keys == d.dir.segments.Keys;
    forall i | 0 <= i < |d'.firsts|
      ensures SegmentOk(p, d', i)
    {
      if i < j { AppendKeepsOthers(p, d, ops, cut, i); }
    }
  }

  lemma EmptySegment(p: Platform, base: nat)
    requires base <= MAX_SEQUENCE
    ensures SegmentFile(p, base, []) == SegmentHeader()
  {
  }

  lemma RollKeepsOthers(p: Platform, d: Disk, i: nat)
    requires LogOk(p, d) && d.tail == [] && d.durable < MAX_SEQUENCE
    requires Shape(Roll(d)) && LastName(d) != d.durable + 1 && i < |d.firsts|
    ensures SegmentOk(p, Roll(d), i)
  {
    hide SegmentFile, AllEncodable, Lists, TornTail;
    SegmentFacts(p, d, i);
    var d' := Roll(d);
    Extent(d', i);
    Extent(d, i);
    if i + 1 == |d.firsts| {
      var whole := SegmentFile(p, Before(d.firsts[i]), OpsOf(d, i));
      assert whole + [] == whole;
      assert OpsOf(d', i) == OpsOf(d, i);
    } else {
      SameSegment(p, d, d', i, i);
    }
  }

  /** Rolling adds the next segment of an adjacent run, or replaces an empty last one. */
  lemma RollOk(p: Platform, d: Disk)
    requires LogOk(p, d) && d.tail == [] && d.durable < MAX_SEQUENCE
    ensures LogOk(p, Roll(d)) && LastName(Roll(d)) == d.durable + 1
  {
    hide SegmentFile, AllEncodable, TornTail, FileOf;
    var d' := Roll(d);
    var j := |d'.firsts| - 1;
    EmptySegment(p, d.durable);
    LastIsEmpty(p, d');
    forall i | 0 <= i < |d'.firsts|
      ensures SegmentOk(p, d', i)
    {
      if i < j {
        if LastName(d) == d.durable + 1 {
          assert SegmentOk(p, d, i);
          Extent(d, i);
          SameSegment(p, d, d', i, i);
        } else {
          RollKeepsOthers(p, d, i);
        }
      }
    }
  }

  lemma LastIsEmpty(p: Platform, d: Disk)
    requires Shape(d) && LastName(d) == d.durable + 1 && d.tail == []
    requires LastName(d) in d.dir.segments && d.dir.segments[LastName(d)] == SegmentHeader()
    ensures SegmentOk(p, d, |d.firsts| - 1)
  {
    hide SegmentFile;
    var j := |d.firsts| - 1;
    Extent(d, j);
    assert OpsOf(d, j) == [];
    EmptySegment(p, d.durable);
    assert SegmentHeader() + [] == SegmentHeader();
  }

  lemma RemovalKeepsOthers(p: Platform, d: Disk, i: nat)
    requires LogOk(p, d) && Shape(RemoveOldestSegment(d)) && i + 1 < |d.firsts|
    ensures SegmentOk(p, RemoveOldestSegment(d), i)
  {
    hide SegmentFile, AllEncodable, TornTail, Lists;
    var d' := RemoveOldestSegment(d);
    SegmentFacts(p, d, i + 1);
    Extent(d', i);
    assert d'.firsts[i] == d.firsts[i + 1] != d.firsts[0];
    assert EndOf(d', i) == EndOf(d, i + 1);
  }

  /** Removing the oldest of several segments keeps the run adjacent. */
  lemma RemoveOldestSegmentOk(p: Platform, d: Disk)
    requires LogOk(p, d) && |d.firsts| > 1
    ensures LogOk(p, RemoveOldestSegment(d))
  {
    hide SegmentFile, AllEncodable, TornTail, FileOf;
    var d' := RemoveOldestSegment(d);
    ListsRest(d.firsts, d.dir.segments.Keys);
    assert d'.dir.segments.Keys == d.dir.segments.Keys - {d.firsts[0]};
    forall i | 0 <= i < |d'.firsts|
      ensures SegmentOk(p, d', i)
    {
      RemovalKeepsOthers(p, d, i);
    }
  }

  /** Recovery's trim leaves an intact log. */
  lemma TrimmedOk(p: Platform, d: Disk)
    requires LogOk(p, d)
    ensures LogOk(p, Trimmed(p, d))
  {
    hide SegmentFile, Encodable, TornTail;
    var d' := Trimmed(p, d);
    var j := |d.firsts| - 1;
    assert SegmentOk(p, d, j);
    forall i | 0 <= i < |d'.firsts|
      ensures SegmentOk(p, d', i)
    {
      assert SegmentOk(p, d, i);
      Extent(d, i);
      Extent(d', i);
      assert OpsOf(d', i) == OpsOf(d, i);
      if i == j {
        var whole := SegmentFile(p, Before(d.firsts[j]), OpsOf(d, j));
        assert whole + [] == whole;
      }
    }
    assert d'.dir.segments.Keys == d.dir.segments.Keys;
  }

  // ----- the snapshots -----

  /** A snapshot stays faithful as the history grows behind it and time passes. */
  lemma SnapKept(p: Platform, d: Disk, d': Disk, name: uint64, now: int, now': int)
    requires Shape(d) && Shape(d') && now <= now'
    requires name in d.snaps && SnapOk(p, d, name, now)
    requires name in d'.snaps && d'.snaps[name] == d.snaps[name]
    requires name in d'.dir.snapshots && name in d.dir.snapshots ==> d'.dir.snapshots[name] == d.dir.snapshots[name]
    requires name in d'.dir.snapshots
    requires d.durable <= d'.durable && d.history[..d.durable] == d'.history[..d.durable]
    ensures SnapOk(p, d', name, now')
  {
    hide SC.WellFormed, SC.EncodeSnapshot, Lowest, Highest, Faithful, AllEncodable, StrictlyAscending;
    FaithfulPrefix(p, d.snaps[name], d.history, d'.history, d.durable, now, now');
  }

  lemma SnapsKept(p: Platform, d: Disk, d': Disk, now: int, now': int)
    requires DiskOk(p, d, now) && Shape(d') && now <= now'
    requires d'.snaps == d.snaps && d'.dir.snapshots == d.dir.snapshots
    requires d.durable <= d'.durable && d.history[..d.durable] == d'.history[..d.durable]
    ensures forall name :: name in d'.snaps ==> SnapOk(p, d', name, now')
  {
    hide SC.WellFormed, SC.EncodeSnapshot, Lowest, Highest, Faithful, AllEncodable, StrictlyAscending, Lists, TornTail;
    forall name | name in d'.snaps
      ensures SnapOk(p, d', name, now')
    {
      assert SnapOk(p, d, name, now);
      SnapKept(p, d, d', name, now, now');
    }
  }

  // ----- every step keeps the directory recoverable -----

  lemma AppendDisk(p: Platform, d: Disk, ops: seq<Op>, cut: nat, now: int)
    requires DiskOk(p, d, now) && d.tail == [] && d.durable == |d.history|
    requires AllEncodable(ops) && d.durable + |ops| <= MAX_SEQUENCE
    requires LastName(d) in d.dir.segments && cut <= |EncodeOps(p, d.durable, ops)|
    ensures DiskOk(p, AppendCut(p, d, ops, cut), now)
  {
    hide SegmentFile, EncodeOps, Encodable, AllEncodable, TornTail, TornPart, WholeRecords, FileOf, Lists, StrictlyAscending, Largest, SnapOk;
    AppendCutOk(p, d, ops, cut);
    SnapsKept(p, d, AppendCut(p, d, ops, cut), now, now);
  }

  lemma RollDisk(p: Platform, d: Disk, now: int)
    requires DiskOk(p, d, now) && d.tail == [] && d.durable < MAX_SEQUENCE
    ensures DiskOk(p, Roll(d), now)
  {
    hide SegmentFile, AllEncodable, TornTail, FileOf, Lists, StrictlyAscending, Largest, SnapOk;
    RollOk(p, d);
    SnapsKept(p, d, Roll(d), now, now);
  }

  lemma TrimDisk(p: Platform, d: Disk, now: int, now': int)
    requires DiskOk(p, d, now) && now <= now'
    ensures DiskOk(p, Trimmed(p, d), now')
  {
    hide SegmentFile, AllEncodable, TornTail, FileOf, Lists, StrictlyAscending, Largest, SnapOk;
    TrimmedOk(p, d);
    SnapsKept(p, d, Trimmed(p, d), now, now');
  }

  lemma TickDisk(p: Platform, d: Disk, now: int, now': int)
    requires DiskOk(p, d, now) && now <= now'
    ensures DiskOk(p, d, now')
  {
    hide LogOk, Largest, SnapOk;
    LogShape(p, d);
    SnapsKept(p, d, d, now, now');
  }

  lemma LogShape(p: Platform, d: Disk)
    requires LogOk(p, d)
    ensures Shape(d)
  {
  }

  lemma InstallNewest(p: Platform, d: Disk, s: SC.Snapshot)
    requires SC.WellFormed(p, s)
    requires forall name :: name in d.snaps ==> name <= Lowest(s.sequences)
    ensures Install(p, d, s).snaps.Keys == d.snaps.Keys + {Lowest(s.sequences)} != {}
    ensures Largest(Install(p, d, s).snaps.Keys) == Lowest(s.sequences)
  {
    hide SC.EncodeSnapshot, Lowest;
    var name := Lowest(s.sequences);
    var keys := Install(p, d, s).snaps.Keys;
    assert keys == d.snaps.Keys + {name};
    assert name in keys;
    assert Largest(keys) in d.snaps.Keys || Largest(keys) == name;
  }

  lemma InstallSnaps(p: Platform, d: Disk, s: SC.Snapshot, name: uint64, now: int)
    requires DiskOk(p, d, now) && SC.WellFormed(p, s) && Shape(Install(p, d, s))
    requires Highest(s.sequences) <= d.durable && Faithful(p, s, d.history, now)
    requires name in Install(p, d, s).snaps
    ensures SnapOk(p, Install(p, d, s), name, now)
  {
    hide LogOk, Highest, Lowest, Faithful, SC.WellFormed, SC.EncodeSnapshot, Largest;
    if name != Lowest(s.sequences) {
      LogShape(p, d);
      assert SnapOk(p, d, name, now);
      SnapKept(p, d, Install(p, d, s), name, now, now);
    }
  }

  /** The newest name only grows when a snapshot is installed over older ones. */
  lemma InstallDisk(p: Platform, d: Disk, s: SC.Snapshot, now: int)
    requires DiskOk(p, d, now) && SC.WellFormed(p, s)
    requires Highest(s.sequences) <= d.durable && Faithful(p, s, d.history, now)
    requires forall name :: name in d.snaps ==> name <= Lowest(s.sequences)
    ensures DiskOk(p, Install(p, d, s), now)
  {
    hide LogOk, Highest, Lowest, Faithful, SC.WellFormed, SC.EncodeSnapshot, Largest, SnapOk;
    var d' := Install(p, d, s);
    SameLog(p, d, d');
    LogShape(p, d');
    InstallNewest(p, d, s);
    forall n | n in d'.snaps
      ensures SnapOk(p, d', n, now)
    {
      InstallSnaps(p, d, s, n, now);
    }
    NewestGrows(d, d');
  }

  lemma NewestGrows(d: Disk, d': Disk)
    requires |d.firsts| > 0 && d'.firsts == d.firsts && Reaches(d)
    requires d.snaps.Keys <= d'.snaps.Keys != {} && 0 <= Largest(d'.snaps.Keys)
    ensures Reaches(d')
  {
  }

  lemma SameLog(p: Platform, d: Disk, d': Disk)
    requires LogOk(p, d)
    requires d' == d.(dir := d.dir.(snapshots := d'.dir.snapshots), snaps := d'.snaps)
    ensures LogOk(p, d')
  {
    hide SegmentFile, AllEncodable, TornTail, StrictlyAscending, Lists;
    forall i | 0 <= i < |d'.firsts|
      ensures SegmentOk(p, d', i)
    {
      assert SegmentOk(p, d, i);
    }
  }

  lemma RemoveSnapshotDisk(p: Platform, d: Disk, name: uint64, now: int)
    requires DiskOk(p, d, now) && name in d.snaps && name != Largest(d.snaps.Keys)
    ensures DiskOk(p, RemoveSnapshot(d, name), now)
    ensures RemoveSnapshot(d, name).snaps.Keys != {}
    ensures Largest(RemoveSnapshot(d, name).snaps.Keys) == Largest(d.snaps.Keys)
  {
    hide SegmentFile, AllEncodable, TornTail, FileOf, Lists, StrictlyAscending, Highest, Lowest, Faithful, SC.WellFormed, SC.EncodeSnapshot;
    var d' := RemoveSnapshot(d, name);
    assert d'.snaps.Keys == d.snaps.Keys - {name};
    assert Largest(d.snaps.Keys) in d'.snaps.Keys;
    SameLog(p, d, d');
    forall n | n in d'.snaps
      ensures SnapOk(p, d', n, now)
    {
      assert SnapOk(p, d, n, now);
      SnapKept(p, d, d', n, now, now);
    }
  }

  /** A segment goes only when the next one starts at or before the snapshot's lowest sequence. */
  lemma RemoveSegmentDisk(p: Platform, d: Disk, now: int)
    requires DiskOk(p, d, now) && |d.firsts| > 1
    requires d.snaps.Keys != {} && d.firsts[1] <= Largest(d.snaps.Keys)
    ensures DiskOk(p, RemoveOldestSegment(d), now)
  {
    hide SegmentFile, AllEncodable, TornTail, FileOf, Lists, StrictlyAscending, Largest, SnapOk;
    RemoveOldestSegmentOk(p, d);
    SnapsKept(p, d, RemoveOldestSegment(d), now, now);
  }

  /** The directory `Open` makes out of an empty one. */
  function Fresh(): Disk {
    Disk(Directory(map[], map[1 := SegmentHeader()]), [], 0, [1], [], map[])
  }

  lemma FreshDisk(p: Platform, now: int)
    ensures DiskOk(p, Fresh(), now)
  {
    hide SegmentHeader, SegmentFile;
    LastIsEmpty(p, Fresh());
  }

  lemma FreshIsRecovered(p: Platform, shards: nat)
    requires shards > 0
    ensures RecoverLog(p, Directory(map[], map[]), shards) == Recovered(map[], 0, HEADER_SIZE, Fresh().dir)
  {
    hide SegmentHeader;
    var empty := Directory(map[], map[]);
    AscendingIsUnique([], empty.snapshots.Keys);
    AscendingIsUnique([], empty.segments.Keys);
  }
}
