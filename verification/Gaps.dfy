/** Directories with something missing: they are refused, and for that reason. */
module Gaps {
  import opened Base
  import opened Listing
  import opened Recovery
  import opened SnapshotDamage
  import SC = SnapshotCodec

  /** The newest snapshot, and what it reads as. */
  ghost predicate NewestReads(p: Platform, dir: Directory, newest: uint64, s: SC.Snapshot) {
    && newest in dir.snapshots && (forall x :: x in dir.snapshots ==> x <= newest)
    && SC.ReadSnapshot(p, dir.snapshots[newest]) == SC.Read(s) && |s.sequences| > 0
  }

  lemma Loads(p: Platform, dir: Directory, shards: nat, only: Option<nat>, newest: uint64, s: SC.Snapshot)
    requires shards > 0 && NewestReads(p, dir, newest, s)
    ensures LoadSnapshot(p, dir, shards, only) == Load(StateOf(s.sequences, shards), ImageOf(p, shards, only, s.items))
  {
    hide SC.ReadSnapshot, SC.WellFormed, SC.EncodeSnapshot, ImageOf;
    NewestIsLast(dir, newest);
  }

  lemma SomeSegment(dir: Directory)
    ensures SegmentNames(dir) == [] <==> dir.segments == map[]
    ensures dir.segments != map[] ==> SegmentNames(dir)[0] in dir.segments
  {
    var names := SegmentNames(dir);
    if names != [] { assert names[0] in names; }
    if dir.segments != map[] {
      var x :| x in dir.segments.Keys;
      assert x in names;
    }
  }

  /** Without a snapshot the log has to begin with record one. */
  lemma NoBeginning(p: Platform, dir: Directory, shards: nat, only: Option<nat>, through: uint64)
    requires shards > 0 && dir.snapshots == map[] && forall x :: x in dir.segments ==> x > 1
    ensures dir.segments != map[] ==> RecoverLog(p, dir, shards) == RecoveryRefused(SequenceGap)
    ensures RecoverImage(p, dir, shards, only, through) == ReconstructionRefused(SequenceGap)
  {
    hide SegmentNames;
    assert SnapshotNames(dir) == [] by { NoSnapshots(dir); }
    SomeSegment(dir);
  }

  lemma NoSnapshots(dir: Directory)
    requires dir.snapshots == map[]
    ensures SnapshotNames(dir) == []
  {
    AscendingIsUnique([], dir.snapshots.Keys);
  }

  /** Behind a snapshot it has to begin at or before the record after the lowest sequence;
      only to reconstruct exactly the snapshot's highest sequence, where no segment reaches
      back to that, is it not asked for. */
  lemma GapBehindSnapshot(p: Platform, dir: Directory, shards: nat, only: Option<nat>, through: uint64, newest: uint64, s: SC.Snapshot)
    requires shards > 0 && NewestReads(p, dir, newest, s) && forall x :: x in dir.segments ==> x > Lowest(s.sequences) + 1
    ensures dir.segments != map[] ==> RecoverLog(p, dir, shards) == RecoveryRefused(SequenceGap)
    ensures Highest(s.sequences) < through || (Highest(s.sequences) == through && exists x :: x in dir.segments && x <= through)
        ==> RecoverImage(p, dir, shards, only, through) == ReconstructionRefused(SequenceGap)
  {
    hide LoadSnapshot, NewestReads, ImageOf, Lowest, Highest, SegmentNames;
    assert |s.sequences| > 0 by { HasSequences(p, dir, newest, s); }
    Loads(p, dir, shards, None, newest, s);
    Loads(p, dir, shards, only, newest, s);
    SomeSegment(dir);
    if exists x :: x in dir.segments && x <= through {
      var x :| x in dir.segments && x <= through;
      FirstIsSmallest(dir, x);
    }
  }

  lemma HasSequences(p: Platform, dir: Directory, newest: uint64, s: SC.Snapshot)
    requires NewestReads(p, dir, newest, s)
    ensures |s.sequences| > 0
  {
  }

  lemma FirstIsSmallest(dir: Directory, x: SegmentName)
    requires x in dir.segments
    ensures SegmentNames(dir) != [] && SegmentNames(dir)[0] <= x
  {
    assert x in SegmentNames(dir);
  }

  /** A snapshot that reaches past the boundary cannot serve to reconstruct it. */
  lemma TooNew(p: Platform, dir: Directory, shards: nat, only: Option<nat>, through: uint64, newest: uint64, s: SC.Snapshot)
    requires shards > 0 && NewestReads(p, dir, newest, s) && Highest(s.sequences) > through
    ensures RecoverImage(p, dir, shards, only, through) == ReconstructionRefused(SnapshotTooNew)
  {
    hide LoadSnapshot, ImageOf, Lowest, Highest;
    Loads(p, dir, shards, only, newest, s);
  }
}
