/** Cleaning up behind an installed snapshot, file by file. */
module Pruning {
  import opened Base
  import opened Listing
  import opened Recovery
  import opened DiskLayout
  import opened DiskSteps
  import opened Protocol
  import opened ProtocolInvariant
  import opened ProtocolSteps

  function Names(r: seq<int>): set<int> { set x | x in r }

  /** The directory without its first `n` listed segments. */
  function WithoutSegments(dir: Directory, names: seq<int>, n: nat): (r: Directory)
    requires n <= |names|
    ensures r.snapshots == dir.snapshots
  {
    dir.(segments := dir.segments - Names(names[..n]))
  }

  /** The directory without its first `n` listed snapshots, all but the retained one. */
  function WithoutSnapshots(dir: Directory, names: seq<int>, n: nat, retained: uint64): Directory
    requires n <= |names|
  {
    dir.(snapshots := dir.snapshots - (Names(names[..n]) - {retained}))
  }

  lemma NothingGone(dir: Directory, names: seq<int>, retained: uint64)
    ensures WithoutSegments(dir, names, 0) == dir == WithoutSnapshots(dir, names, 0, retained)
  {
    assert Names(names[..0]) == {};
    assert dir.segments - {} == dir.segments;
    assert Names(names[..0]) - {retained} == {};
    assert dir.snapshots - {} == dir.snapshots;
  }

  lemma NextSegment(dir: Directory, names: seq<int>, i: nat)
    requires i < |names|
    ensures var d := WithoutSegments(dir, names, i);
      WithoutSegments(dir, names, i + 1) == d.(segments := d.segments - {names[i]})
  {
    OneMore(names, i);
    assert dir.segments - Names(names[..i + 1]) == dir.segments - Names(names[..i]) - {names[i]};
  }

  lemma NextSnapshot(dir: Directory, names: seq<int>, i: nat, retained: uint64)
    requires i < |names|
    ensures var d := WithoutSnapshots(dir, names, i, retained);
      WithoutSnapshots(dir, names, i + 1, retained)
        == if names[i] == retained then d else d.(snapshots := d.snapshots - {names[i]})
  {
    OneMore(names, i);
    var gone := Names(names[..i]) - {retained};
    var gone' := Names(names[..i + 1]) - {retained};
    if names[i] == retained {
      assert gone' == gone;
    } else {
      assert gone' == gone + {names[i]};
      assert dir.snapshots - gone' == dir.snapshots - gone - {names[i]};
    }
  }

  lemma OnlyRetained(dir: Directory, names: seq<int>, retained: uint64)
    requires Lists(names, dir.snapshots.Keys)
    ensures WithoutSnapshots(dir, names, |names|, retained).snapshots.Keys == dir.snapshots.Keys * {retained}
  {
    assert names[..|names|] == names;
    assert Names(names) == dir.snapshots.Keys;
  }

  /** The directory a store owns. A removal fails for the names in `stuck`. */
  class Files {
    var dir: Directory

    constructor (dir: Directory)
      ensures this.dir == dir
    {
      this.dir := dir;
    }

    /** `removeOtherSnapshots`: the listed snapshots go one after the other, except
        the retained one, until a removal fails. */
    method RemoveOtherSnapshots(retained: uint64, stuck: set<uint64>) returns (ok: bool, removed: nat)
      modifies this`dir
      ensures
        var names := SnapshotNames(old(dir));
        && removed <= |names|
        && dir == WithoutSnapshots(old(dir), names, removed, retained)
        && (forall i :: 0 <= i < removed && names[i] != retained ==> names[i] !in stuck)
        && (ok ==> dir.snapshots.Keys == old(dir).snapshots.Keys * {retained})
        && (!ok ==> removed < |names| && names[removed] != retained && names[removed] in stuck)
    {
      hide SnapshotNames, WithoutSnapshots, Lists;
      var names := SnapshotNames(dir);
      removed := 0;
      NothingGone(dir, names, retained);
      while removed < |names|
        invariant removed <= |names|
        invariant dir == WithoutSnapshots(old(dir), names, removed, retained)
        invariant forall i :: 0 <= i < removed && names[i] != retained ==> names[i] !in stuck
      {
        NextSnapshot(old(dir), names, removed, retained);
        if names[removed] != retained {
          if names[removed] in stuck { return false, removed; }
          dir := dir.(snapshots := dir.snapshots - {names[removed]});
        }
        removed := removed + 1;
      }
      OnlyRetained(old(dir), names, retained);
      ok := true;
    }

    /** `deleteSegmentsBefore`: a segment goes when the next one starts at or before
        `lowest`; the last one always stays. */
    method DeleteSegmentsBefore(lowest: uint64, stuck: set<SegmentName>) returns (ok: bool, removed: nat)
      modifies this`dir
      ensures
        var names := SegmentNames(old(dir));
        && removed <= |names|
        && dir == WithoutSegments(old(dir), names, removed)
        && (forall i :: 0 <= i < removed ==> Superseded(names, lowest, i) && names[i] !in stuck)
        && (ok ==> !Superseded(names, lowest, removed))
        && (!ok ==> Superseded(names, lowest, removed) && names[removed] in stuck)
    {
      hide SegmentNames, WithoutSegments, Lists;
      var names := SegmentNames(dir);
      removed := 0;
      NothingGone(dir, names, 0);
      while removed + 1 < |names|
        invariant removed <= |names|
        invariant dir == WithoutSegments(old(dir), names, removed)
        invariant forall i :: 0 <= i < removed ==> Superseded(names, lowest, i) && names[i] !in stuck
      {
        if names[removed + 1] > lowest { break; }
        if names[removed] in stuck { return false, removed; }
        dir := dir.(segments := dir.segments - {names[removed]});
        NextSegment(old(dir), names, removed);
        removed := removed + 1;
      }
      ok := true;
    }

    /** The end of `installSnapshot`: clean up behind the snapshot just installed.
        However far it gets, what is left is a directory of the protocol, so recovery
        takes it and rebuilds the same history. */
    method CleanUp(p: Platform, ghost s: State, lowest: uint64, stuckSnapshots: set<uint64>, stuckSegments: set<SegmentName>)
      returns (ok: bool, ghost after: State)
      requires dir == s.disk.dir && Inv(p, s) && s.task == Cleaning(lowest)
      modifies this`dir
      ensures Inv(p, after) && after.disk.dir == dir
      ensures after == s.(disk := after.disk) && after.disk.history == s.disk.history && after.disk.durable == s.disk.durable
      ensures stuckSnapshots == {} && stuckSegments == {} ==> ok
      ensures ok ==> dir.snapshots.Keys == {lowest}
      ensures ok ==> forall i :: i > 0 ==> !WhollyCovered(after.disk.firsts, lowest, i)
    {
      hide Inv, DropOldest, DropSnapshots, SnapshotNames, SegmentNames, WithoutSegments, WithoutSnapshots, Lists, WhollyCovered, Superseded;
      ghost var snapshots := SnapshotNames(dir);
      ghost var segments := SegmentNames(dir);
      CleaningFacts(p, s);
      var removed;
      ok, removed := RemoveOtherSnapshots(lowest, stuckSnapshots);
      RemovingSnapshotsKeepsInv(p, s, snapshots, removed);
      DroppedSnapshots(s.disk, snapshots, removed, lowest);
      after := s.(disk := DropSnapshots(s.disk, snapshots, removed, lowest));
      if !ok { return; }
      CleaningFacts(p, after);
      ok, removed := DeleteSegmentsBefore(lowest, stuckSegments);
      PruningKeepsInv(p, after, removed);
      DropOldestFiles(after.disk, removed);
      if ok {
        forall i | i > 0
          ensures !WhollyCovered(after.disk.firsts[removed..], lowest, i)
        {
          AtMostOneCovered(after.disk.firsts, lowest, removed, i);
        }
      }
      after := after.(disk := DropOldest(after.disk, removed));
    }
  }

  lemma OneMore(names: seq<int>, i: nat)
    requires i < |names|
    ensures Names(names[..i + 1]) == Names(names[..i]) + {names[i]}
  {
    assert names[..i + 1] == names[..i] + [names[i]];
  }

  predicate Superseded(names: seq<int>, lowest: int, i: nat) {
    i + 1 < |names| && names[i + 1] <= lowest
  }

  /** All records of segment `i` lie at or below `lowest`. */
  predicate WhollyCovered(names: seq<int>, lowest: int, i: nat) {
    i + 1 < |names| && names[i + 1] - 1 <= lowest
  }

  /** A finished cleanup leaves at most one segment it could have spared, the oldest,
      and takes none that holds a record past `lowest`. */
  lemma AtMostOneCovered(names: seq<int>, lowest: int, removed: nat, i: nat)
    requires StrictlyAscending(names) && removed <= |names|
    requires forall j :: 0 <= j < removed ==> Superseded(names, lowest, j)
    requires !Superseded(names, lowest, removed)
    ensures WhollyCovered(names[removed..], lowest, i) ==> i == 0 && names[removed + 1] == lowest + 1
    ensures forall j :: 0 <= j < removed ==> WhollyCovered(names, lowest, j)
    ensures names != [] ==> removed < |names| && (removed > 0 ==> names[removed] <= lowest)
  {
    assert removed > 0 ==> Superseded(names, lowest, removed - 1);
    if WhollyCovered(names[removed..], lowest, i) {
      assert names[removed..][i + 1] == names[removed + i + 1];
    }
  }

  /** The disk after its `n` oldest segments are gone. */
  function DropOldest(d: Disk, n: nat): (r: Disk)
    requires n <= |d.firsts|
    ensures r.firsts == d.firsts[n..]
    decreases n
  {
    if n == 0 then d else DropOldest(RemoveOldestSegment(d), n - 1)
  }

  lemma {:induction false} DropOldestFiles(d: Disk, n: nat)
    requires n <= |d.firsts|
    ensures DropOldest(d, n) == d.(dir := WithoutSegments(d.dir, d.firsts, n), firsts := d.firsts[n..])
    decreases n
  {
    if n == 0 {
      assert d.dir.segments - Names(d.firsts[..0]) == d.dir.segments;
    } else {
      var d' := RemoveOldestSegment(d);
      DropOldestFiles(d', n - 1);
      assert d.firsts[..n] == [d.firsts[0]] + d'.firsts[..n - 1];
      assert d.dir.segments - Names(d.firsts[..n]) == d'.dir.segments - Names(d'.firsts[..n - 1]);
    }
  }

  /** Wherever the removal of segments stops, finished or not, the store's invariant
      holds of what is left: every directory `DeleteSegmentsBefore` passes through
      can be recovered. */
  lemma {:induction false} PruningKeepsInv(p: Platform, s: State, n: nat)
    requires Inv(p, s) && s.task.Cleaning? && n <= |s.disk.firsts|
    requires forall i :: 0 <= i < n ==> Superseded(s.disk.firsts, s.task.name, i)
    ensures Inv(p, s.(disk := DropOldest(s.disk, n)))
    decreases n
  {
    hide Inv;
    if n == 0 {
      assert s.(disk := s.disk) == s;
    } else {
      assert Superseded(s.disk.firsts, s.task.name, 0);
      StepDropSegment(p, s);
      var s' := s.(disk := RemoveOldestSegment(s.disk));
      forall i | 0 <= i < n - 1
        ensures Superseded(s'.disk.firsts, s.task.name, i)
      {
        assert Superseded(s.disk.firsts, s.task.name, i + 1);
      }
      PruningKeepsInv(p, s', n - 1);
    }
  }

  /** The disk after the first `n` listed snapshots, all but the retained one, are gone. */
  function DropSnapshots(d: Disk, names: seq<uint64>, n: nat, retained: uint64): Disk
    requires n <= |names|
  {
    d.(dir := WithoutSnapshots(d.dir, names, n, retained), snaps := d.snaps - (Names(names[..n]) - {retained}))
  }

  lemma DroppedSnapshots(d: Disk, names: seq<uint64>, n: nat, retained: uint64)
    requires n <= |names|
    ensures
      var d' := DropSnapshots(d, names, n, retained);
      && d'.dir == WithoutSnapshots(d.dir, names, n, retained) && d'.dir.segments == d.dir.segments
      && d'.firsts == d.firsts && d'.history == d.history && d'.durable == d.durable
  {
  }

  /** What the invariant says of a store that is cleaning up. */
  lemma CleaningFacts(p: Platform, s: State)
    requires Inv(p, s) && s.task.Cleaning?
    ensures SegmentNames(s.disk.dir) == s.disk.firsts && StrictlyAscending(s.disk.firsts)
    ensures Lists(SnapshotNames(s.disk.dir), s.disk.snaps.Keys)
    ensures s.task.name in s.disk.dir.snapshots
  {
    hide MemOk, SnapOk, Reaches, Largest;
    NamesOf(p, s.disk);
  }

  lemma DropNextSnapshot(d: Disk, names: seq<uint64>, n: nat, retained: uint64)
    requires n < |names| && Lists(names, d.snaps.Keys)
    ensures names[n] in DropSnapshots(d, names, n, retained).snaps
    ensures DropSnapshots(d, names, n + 1, retained)
         == if names[n] == retained then DropSnapshots(d, names, n, retained)
            else RemoveSnapshot(DropSnapshots(d, names, n, retained), names[n])
  {
    hide WithoutSnapshots;
    assert names[n] in names;
    OneMore(names, n);
    NextSnapshot(d.dir, names, n, retained);
    var gone := Names(names[..n]) - {retained};
    var gone' := Names(names[..n + 1]) - {retained};
    if names[n] == retained {
      assert gone' == gone;
    } else {
      assert gone' == gone + {names[n]};
      assert d.snaps - gone' == d.snaps - gone - {names[n]};
    }
  }

  /** The same for the removal of the other snapshots. */
  lemma {:induction false} RemovingSnapshotsKeepsInv(p: Platform, s: State, names: seq<uint64>, n: nat)
    requires Inv(p, s) && s.task.Cleaning? && Lists(names, s.disk.snaps.Keys) && n <= |names|
    ensures Inv(p, s.(disk := DropSnapshots(s.disk, names, n, s.task.name)))
    decreases n
  {
    hide Inv, Lists, DropSnapshots, RemoveSnapshot;
    if n == 0 {
      NothingDropped(s.disk, names, s.task.name);
      assert s.(disk := s.disk) == s;
    } else {
      RemovingSnapshotsKeepsInv(p, s, names, n - 1);
      DropNextSnapshot(s.disk, names, n - 1, s.task.name);
      if names[n - 1] != s.task.name {
        StepDropSnapshot(p, s.(disk := DropSnapshots(s.disk, names, n - 1, s.task.name)), names[n - 1]);
      }
    }
  }

  lemma NothingDropped(d: Disk, names: seq<uint64>, retained: uint64)
    ensures DropSnapshots(d, names, 0, retained) == d
  {
    assert Names(names[..0]) - {retained} == {};
    assert d.snaps - {} == d.snaps && d.dir.snapshots - {} == d.dir.snapshots;
  }
}
