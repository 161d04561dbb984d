/** What the files of a store look like at any moment of its life, and what
    recovery makes of them. */
module DiskLayout {
  import opened Base
  import opened Replay
  import opened Listing
  import opened Slices
  import opened WalCodec
  import opened SegmentRecovery
  import opened Recovery
  import SC = SnapshotCodec

  /** A directory together with the history it stands for. `durable` is the number
      of records wholly in the log, `firsts` the segment names in order, `tail`
      what a cut write left behind them, `snaps` what the snapshots decode to. */
  datatype Disk = Disk(
    dir: Directory,
    history: History,
    durable: nat,
    firsts: seq<SegmentName>,
    tail: Bytes,
    snaps: map<uint64, SC.Snapshot>)

  // ----- the log -----

  predicate Shape(d: Disk) {
    && d.durable <= |d.history| <= MAX_SEQUENCE
    && AllEncodable(d.history)
    && |d.firsts| > 0
    && StrictlyAscending(d.firsts)
    && d.firsts[|d.firsts| - 1] <= d.durable + 1
  }

  /** How many records precede the segment after `j`. */
  function EndOf(d: Disk, j: nat): nat
    requires j < |d.firsts|
  {
    if j + 1 < |d.firsts| then Before(d.firsts[j + 1]) else d.durable
  }

  lemma Extent(d: Disk, j: nat)
    requires Shape(d) && j < |d.firsts|
    ensures d.firsts[j] <= d.firsts[|d.firsts| - 1]
    ensures Before(d.firsts[j]) <= EndOf(d, j) <= d.durable
    ensures j + 1 < |d.firsts| ==> Before(d.firsts[j]) < EndOf(d, j) == Before(d.firsts[j + 1])
  {
  }

  function OpsOf(d: Disk, j: nat): seq<Op>
    requires Shape(d) && j < |d.firsts|
  {
    Extent(d, j);
    d.history[Before(d.firsts[j])..EndOf(d, j)]
  }

  function FileOf(p: Platform, d: Disk, j: nat): Bytes
    requires Shape(d) && j < |d.firsts|
  {
    Extent(d, j);
    var whole := SegmentFile(p, Before(d.firsts[j]), OpsOf(d, j));
    if j + 1 < |d.firsts| then whole else whole + d.tail
  }

  predicate SegmentOk(p: Platform, d: Disk, j: nat)
    requires Shape(d) && j < |d.firsts|
  {
    d.firsts[j] in d.dir.segments && d.dir.segments[d.firsts[j]] == FileOf(p, d, j)
  }

  /** The log is an adjacent run of segments, each named for its first record;
      only the last may be empty and only the last may end in a torn tail. */
  ghost predicate LogOk(p: Platform, d: Disk) {
    && Shape(d)
    && Lists(d.firsts, d.dir.segments.Keys)
    && (forall j :: 0 <= j < |d.firsts| ==> SegmentOk(p, d, j))
    && (d.tail != [] ==> d.durable < |d.history| && TornTail(p, d.tail, d.durable + 1, d.history[d.durable]))
  }

  lemma NamesOf(p: Platform, d: Disk)
    requires LogOk(p, d)
    ensures SegmentNames(d.dir) == d.firsts && Present(d.dir, d.firsts)
  {
    AscendingIsUnique(d.firsts, d.dir.segments.Keys);
  }

  /** Everything known about one segment, free of quantifiers. */
  lemma SegmentFacts(p: Platform, d: Disk, j: nat)
    requires LogOk(p, d) && j < |d.firsts|
    ensures Shape(d) && d.firsts[j] in d.dir.segments
    ensures Before(d.firsts[j]) <= EndOf(d, j) <= d.durable && |OpsOf(d, j)| == EndOf(d, j) - Before(d.firsts[j])
    ensures AllEncodable(OpsOf(d, j))
    ensures
      var whole := SegmentFile(p, Before(d.firsts[j]), OpsOf(d, j));
      d.dir.segments[d.firsts[j]] == if j + 1 < |d.firsts| then whole else whole + d.tail
    ensures j + 1 < |d.firsts| ==> EndOf(d, j) == Before(d.firsts[j + 1])
    ensures j + 1 == |d.firsts| ==> EndOf(d, j) == d.durable
  {
    hide SegmentFile, TornTail, Encodable;
    assert SegmentOk(p, d, j);
    Extent(d, j);
  }

  lemma TailFacts(p: Platform, d: Disk)
    requires LogOk(p, d) && d.tail != []
    ensures d.durable < |d.history| <= MAX_SEQUENCE && Encodable(d.history[d.durable])
    ensures TornTail(p, d.tail, d.durable + 1, d.history[d.durable])
  {
    hide TornTail;
  }

  lemma WalkLast(p: Platform, d: Disk)
    requires LogOk(p, d) && SegmentOk(p, d, |d.firsts| - 1)
    ensures
      var j := |d.firsts| - 1;
      WalkSegment(p, d.dir.segments[d.firsts[j]], d.firsts[j], true, MAX_SEQUENCE, Before(d.firsts[j]))
        == Walked(OpsOf(d, j), |SegmentFile(p, Before(d.firsts[j]), OpsOf(d, j))|, d.tail != [])
  {
    hide SegmentFile, WalkSegment, TornTail, AllEncodable, Encodable, OpsOf;
    var j := |d.firsts| - 1;
    SegmentFacts(p, d, j);
    if d.tail == [] {
      WalkFinal(p, Before(d.firsts[j]), OpsOf(d, j), d.tail, Delete([]), d.firsts[j]);
    } else {
      TailFacts(p, d);
      WalkFinal(p, Before(d.firsts[j]), OpsOf(d, j), d.tail, d.history[d.durable], d.firsts[j]);
    }
  }

  /** The walk from any segment of the log yields the rest of the durable history. */
  lemma {:induction false} WalkRest(p: Platform, d: Disk, j: nat)
    requires LogOk(p, d) && Present(d.dir, d.firsts) && j < |d.firsts|
    ensures Before(d.firsts[j]) <= d.durable
    ensures
      var last := |d.firsts| - 1;
      WalkSegments(p, d.dir, d.firsts, j, Before(d.firsts[j]), MAX_SEQUENCE, true)
        == Walked(d.history[Before(d.firsts[j])..d.durable],
                  |SegmentFile(p, Before(d.firsts[last]), OpsOf(d, last))|, d.tail != [])
    decreases |d.firsts| - j
  {
    hide SegmentFile, WalkSegment, TornTail, AllEncodable, Encodable, StrictlyAscending, Lists;
    SegmentFacts(p, d, j);
    if j + 1 == |d.firsts| {
      WalkLast(p, d);
    } else {
      WalkIntact(p, Before(d.firsts[j]), OpsOf(d, j), d.firsts[j], false, MAX_SEQUENCE);
      WalkRest(p, d, j + 1);
      Split(d.history, Before(d.firsts[j]), EndOf(d, j), d.durable);
    }
  }

  /** Where a reconstruction may stop: anywhere in the log, unless torn bytes follow
      the last record in the same segment. */
  predicate Boundary(d: Disk, through: uint64)
    requires Shape(d)
  {
    through < d.durable || d.tail == [] || d.firsts[|d.firsts| - 1] == d.durable + 1
  }

  /** Reading a segment up to a sequence it holds. */
  lemma WalkUpTo(p: Platform, d: Disk, j: nat, through: uint64)
    requires LogOk(p, d) && j < |d.firsts| && SegmentOk(p, d, j)
    requires d.firsts[j] <= through <= EndOf(d, j)
    requires through < EndOf(d, j) || j + 1 < |d.firsts| || d.tail == []
    ensures EndOf(d, j) <= d.durable
    ensures
      var w := WalkSegment(p, d.dir.segments[d.firsts[j]], d.firsts[j], false, through, Before(d.firsts[j]));
      w.Walked? && w.ops == d.history[Before(d.firsts[j])..through]
  {
    hide SegmentFile, WalkSegment, TornTail, AllEncodable, Encodable, Lists;
    var base := Before(d.firsts[j]);
    SegmentFacts(p, d, j);
    var tail := if j + 1 < |d.firsts| then [] else d.tail;
    assert d.dir.segments[d.firsts[j]] == SegmentFile(p, base, OpsOf(d, j)) + tail;
    WalkPart(p, base, OpsOf(d, j), through - base, tail);
    assert OpsOf(d, j)[..through - base] == d.history[base..through];
  }

  /** The walk up to a boundary yields the history up to it, whatever lies behind;
      without one it is refused. */
  lemma {:induction false} WalkThrough(p: Platform, d: Disk, j: nat, through: uint64)
    requires LogOk(p, d) && Present(d.dir, d.firsts) && j < |d.firsts|
    requires Before(d.firsts[j]) <= through <= d.durable
    ensures
      var w := WalkSegments(p, d.dir, d.firsts, j, Before(d.firsts[j]), through, false);
      && (w.Walked? <==> Boundary(d, through))
      && (w.Walked? ==> w.ops == d.history[Before(d.firsts[j])..through])
    decreases |d.firsts| - j
  {
    hide SegmentFile, WalkSegment, TornTail, AllEncodable, Encodable, Lists;
    SegmentFacts(p, d, j);
    if d.firsts[j] <= through {
      if j + 1 == |d.firsts| {
        if Boundary(d, through) {
          WalkUpTo(p, d, j, through);
        } else {
          TailFacts(p, d);
          WalkRefusesTorn(p, Before(d.firsts[j]), OpsOf(d, j), d.tail, d.history[d.durable], d.firsts[j], through);
        }
      } else if EndOf(d, j) <= through {
        WalkIntact(p, Before(d.firsts[j]), OpsOf(d, j), d.firsts[j], false, through);
        WalkThrough(p, d, j + 1, through);
        Split(d.history, Before(d.firsts[j]), EndOf(d, j), through);
      } else {
        WalkUpTo(p, d, j, through);
        assert d.firsts[j + 1] > through;
      }
    }
  }

  // ----- the snapshots -----

  /** The sequence a key's shard was captured at. */
  function CapturedAt(p: Platform, s: SC.Snapshot, k: Key): (r: uint64)
    requires |s.sequences| > 0
    ensures Lowest(s.sequences) <= r <= Highest(s.sequences)
  {
    var r := s.sequences[ShardOf(p, |s.sequences|, k)];
    assert r in s.sequences;
    r
  }

  /** For one key: the image holds its state at the sequence its shard was captured
      at, up to what had expired by `now`. */
  predicate FaithfulOn(p: Platform, s: SC.Snapshot, h: History, now: int, k: Key)
    requires |s.sequences| > 0 && Highest(s.sequences) <= |h| <= MAX_SEQUENCE
  {
    Agrees(Lookup(ToImage(s.items), k), KeyAt(h, CapturedAt(p, s, k), k), now)
  }

  /** An image assembled shard by shard: each shard exact at its own sequence. */
  ghost predicate Faithful(p: Platform, s: SC.Snapshot, h: History, now: int)
    requires |s.sequences| > 0 && Highest(s.sequences) <= |h| <= MAX_SEQUENCE
  {
    forall k :: FaithfulOn(p, s, h, now, k)
  }

  ghost predicate SnapOk(p: Platform, d: Disk, name: uint64, now: int)
    requires Shape(d) && name in d.snaps
  {
    var s := d.snaps[name];
    && SC.WellFormed(p, s)
    && name in d.dir.snapshots && d.dir.snapshots[name] == SC.EncodeSnapshot(p, s)
    && Lowest(s.sequences) == name
    && Highest(s.sequences) <= d.durable
    && Faithful(p, s, d.history, now)
  }

  /** The log starts no later than the newest snapshot needs it to. */
  predicate Reaches(d: Disk)
    requires |d.firsts| > 0
  {
    d.firsts[0] <= if d.snaps.Keys == {} then 1 else Largest(d.snaps.Keys) + 1
  }

  ghost predicate DiskOk(p: Platform, d: Disk, now: int) {
    && LogOk(p, d)
    && d.snaps.Keys == d.dir.snapshots.Keys
    && (forall name :: name in d.snaps ==> SnapOk(p, d, name, now))
    && Reaches(d)
  }

  lemma NewestName(d: Disk)
    requires d.snaps.Keys == d.dir.snapshots.Keys
    ensures d.snaps.Keys == {} <==> SnapshotNames(d.dir) == []
    ensures d.snaps.Keys != {} ==>
      SnapshotNames(d.dir)[|SnapshotNames(d.dir)| - 1] == Largest(d.snaps.Keys)
  {
    var names := SnapshotNames(d.dir);
    assert names != [] ==> names[0] in names;
    if d.snaps.Keys != {} {
      LastIsLargest(d.snaps.Keys);
    }
  }

  /** The newest snapshot loads to what it was written from. */
  lemma LoadNewest(p: Platform, d: Disk, shards: nat, only: Option<nat>, now: int)
    requires DiskOk(p, d, now) && shards > 0
    ensures d.snaps.Keys == {} ==> LoadSnapshot(p, d.dir, shards, only) == Load(NoSnapshot, map[])
    ensures d.snaps.Keys != {} ==>
      && Largest(d.snaps.Keys) in d.snaps
      && var s := d.snaps[Largest(d.snaps.Keys)];
      && SnapOk(p, d, Largest(d.snaps.Keys), now)
      && LoadSnapshot(p, d.dir, shards, only)
         == Load(StateOf(s.sequences, shards), ImageOf(p, shards, only, s.items))
  {
    hide SC.EncodeSnapshot, SC.ReadSnapshot, SC.WellFormed;
    NewestName(d);
    if d.snaps.Keys != {} {
      assert SnapOk(p, d, Largest(d.snaps.Keys), now);
      SC.SnapshotRoundTrip(p, d.snaps[Largest(d.snaps.Keys)]);
    }
  }
}
