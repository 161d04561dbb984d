/** Recovery rebuilds the replayed history. */
module RecoveryCorrectness {
  import opened Base
  import opened Replay
  import opened Listing
  import opened WalCodec
  import opened SegmentRecovery
  import opened Recovery
  import opened DiskLayout
  import SC = SnapshotCodec

  /** `image` is the history through `n`, minus entries expired by `now`. */
  ghost predicate Rebuilds(image: Image, h: History, n: nat, now: int)
    requires n <= |h| <= MAX_SEQUENCE
  {
    forall k :: Agrees(Lookup(image, k), KeyAt(h, n, k), now)
  }

  /** The same for the keys of one shard, and nothing else in the image. */
  ghost predicate RebuildsShard(p: Platform, shards: nat, only: Option<nat>, image: Image, h: History, n: nat, now: int)
    requires shards > 0 && n <= |h| <= MAX_SEQUENCE
  {
    forall k :: if only.None? || ShardOf(p, shards, k) == only.value
                then Agrees(Lookup(image, k), KeyAt(h, n, k), now) else k !in image
  }

  /** What recovery computes from a loaded snapshot and a stretch of log. */
  function ReplayedOnto(p: Platform, s: SC.Snapshot, shards: nat, only: Option<nat>, h: History, lo: nat, hi: nat): Image
    requires |s.sequences| > 0 && shards > 0 && lo <= hi <= |h| <= MAX_SEQUENCE
  {
    Fold(p, FilterFor(StateOf(s.sequences, shards), shards, only), ImageOf(p, shards, only, s.items), h[lo..hi], lo)
  }

  lemma FuzzyKey(p: Platform, s: SC.Snapshot, shards: nat, only: Option<nat>, h: History, lo: nat, hi: nat, now: int, k: Key)
    requires |s.sequences| > 0 && shards > 0
    requires lo <= Lowest(s.sequences) && Highest(s.sequences) <= hi <= |h| <= MAX_SEQUENCE
    requires FaithfulOn(p, s, h, now, k)
    ensures if only.None? || ShardOf(p, shards, k) == only.value
            then Agrees(Lookup(ReplayedOnto(p, s, shards, only, h, lo, hi), k), KeyAt(h, hi, k), now)
            else k !in ReplayedOnto(p, s, shards, only, h, lo, hi)
  {
    hide KeyAt, Fold, ImageOf, Lowest, Highest;
    var f := FilterFor(StateOf(s.sequences, shards), shards, only);
    var base := ImageOf(p, shards, only, s.items);
    ImageOfLookup(p, shards, only, s.items, k);
    if Wanted(p, f, k) {
      FoldBeyondCover(p, f, base, h, lo, CapturedAt(p, s, k), hi, k, now);
    } else {
      FoldUnwanted(p, f, base, h[lo..hi], lo, k);
    }
  }

  /** Fuzzy snapshots are correct. If every shard of an image is exact at its own
      sequence, then loading the image and replaying the log from the lowest of
      these sequences, to any end at or past the highest, gives the plain replay of
      the history, whatever the skew. It holds with the per-shard filter (equal
      shard counts) and with the lowest-sequence filter (any other shard count). */
  lemma FuzzySnapshot(p: Platform, s: SC.Snapshot, shards: nat, only: Option<nat>, h: History, lo: nat, hi: nat, now: int)
    requires |s.sequences| > 0 && shards > 0
    requires lo <= Lowest(s.sequences) && Highest(s.sequences) <= hi <= |h| <= MAX_SEQUENCE
    requires Faithful(p, s, h, now)
    ensures RebuildsShard(p, shards, only, ReplayedOnto(p, s, shards, only, h, lo, hi), h, hi, now)
  {
    hide KeyAt, Lowest, Highest, ReplayedOnto, FaithfulOn;
    forall k
      ensures if only.None? || ShardOf(p, shards, k) == only.value
              then Agrees(Lookup(ReplayedOnto(p, s, shards, only, h, lo, hi), k), KeyAt(h, hi, k), now)
              else k !in ReplayedOnto(p, s, shards, only, h, lo, hi)
    {
      assert FaithfulOn(p, s, h, now, k);
      FuzzyKey(p, s, shards, only, h, lo, hi, now, k);
    }
  }

  /** Recovery from the log alone. */
  lemma PlainReplay(p: Platform, shards: nat, only: Option<nat>, h: History, hi: nat, now: int)
    requires shards > 0 && hi <= |h| <= MAX_SEQUENCE
    ensures RebuildsShard(p, shards, only, Fold(p, FilterFor(NoSnapshot, shards, only), map[], h[0..hi], 0), h, hi, now)
  {
    hide KeyAt, Fold;
    var f := FilterFor(NoSnapshot, shards, only);
    forall k
      ensures if only.None? || ShardOf(p, shards, k) == only.value
              then Agrees(Lookup(Fold(p, f, map[], h[0..hi], 0), k), KeyAt(h, hi, k), now)
              else k !in Fold(p, f, map[], h[0..hi], 0)
    {
      if Wanted(p, f, k) {
        assert KeyAt(h, 0, k) == None by { KeyAtNothing(h, k); }
        FoldBeyondCover(p, f, map[], h, 0, 0, hi, k, now);
      } else {
        FoldUnwanted(p, f, map[], h[0..hi], 0, k);
      }
    }
  }

  lemma KeyAtNothing(h: History, k: Key)
    requires |h| <= MAX_SEQUENCE
    ensures KeyAt(h, 0, k) == None
  {
  }

  /** The directory after recovery: the torn tail, if any, is gone and nothing else. */
  function Trimmed(p: Platform, d: Disk): Disk
    requires Shape(d)
  {
    var j := |d.firsts| - 1;
    Extent(d, j);
    d.(dir := d.dir.(segments := d.dir.segments[d.firsts[j] := SegmentFile(p, Before(d.firsts[j]), OpsOf(d, j))]),
       history := d.history[..d.durable],
       tail := [])
  }

  lemma StartOf(d: Disk)
    requires Shape(d) && Reaches(d) && d.snaps.Keys != {}
    requires 0 <= Largest(d.snaps.Keys) <= MAX_SEQUENCE
    ensures d.firsts[0] <= FirstRequired(Largest(d.snaps.Keys))
    ensures Before(d.firsts[LastAtMost(d.firsts, FirstRequired(Largest(d.snaps.Keys)))]) <= Largest(d.snaps.Keys)
  {
  }

  /** Every directory the store can leave behind is accepted by `recoverLog`, for
      any shard count; the recovered store is the replay of the durable history. */
  lemma RecoverAccepts(p: Platform, d: Disk, shards: nat, now: int)
    requires DiskOk(p, d, now) && shards > 0
    ensures
      var r := RecoverLog(p, d.dir, shards);
      && r.Recovered?
      && r.sequence == d.durable
      && r.dir == Trimmed(p, d).dir
      && Rebuilds(r.image, d.history, d.durable, now)
  {
    hide LoadSnapshot, SC.WellFormed, SC.EncodeSnapshot, Fold, KeyAt, ImageOf, Lowest, Highest, Faithful, SegmentFile, WalkSegments,
         LastAtMost, SegmentNames, Largest, AllEncodable, TornTail, StrictlyAscending, Lists;
    LoadNewest(p, d, shards, None, now);
    NamesOf(p, d);
    var j := |d.firsts| - 1;
    SegmentFacts(p, d, j);
    var whole := SegmentFile(p, Before(d.firsts[j]), OpsOf(d, j));
    assert (whole + d.tail)[..|whole|] == whole;
    assert d.tail == [] ==> whole + d.tail == whole;
    if d.snaps.Keys == {} {
      WalkRest(p, d, 0);
      PlainReplay(p, shards, None, d.history, d.durable, now);
    } else {
      var newest := Largest(d.snaps.Keys);
      StartOf(d);
      var start := LastAtMost(d.firsts, FirstRequired(newest));
      WalkRest(p, d, start);
      FuzzySnapshot(p, d.snaps[newest], shards, None, d.history, Before(d.firsts[start]), d.durable, now);
    }
  }

  /** Reconstruction for compaction and for the final image. Rebuilding the durable
      image through a sequence the log holds (whole, or one shard of it) is refused
      exactly when torn bytes end the segment being read; otherwise it gives the
      replay through that sequence, whatever the log holds beyond it. */
  lemma ReconstructsIffReadable(p: Platform, d: Disk, shards: nat, only: Option<nat>, through: uint64, now: int)
    requires DiskOk(p, d, now) && shards > 0 && through <= d.durable
    requires forall name :: name in d.snaps ==> Highest(d.snaps[name].sequences) <= through
    ensures
      var r := RecoverImage(p, d.dir, shards, only, through);
      && (r.Reconstructed? <==> Boundary(d, through))
      && (r.Reconstructed? ==> RebuildsShard(p, shards, only, r.image, d.history, through, now))
  {
    hide LoadSnapshot, SC.WellFormed, SC.EncodeSnapshot, Fold, KeyAt, ImageOf, Lowest, Highest, Faithful, SegmentFile, WalkSegments,
         LastAtMost, SegmentNames, Largest, AllEncodable, TornTail, StrictlyAscending, Lists, ReplayOnto, RebuildsShard;
    LoadNewest(p, d, shards, only, now);
    NamesOf(p, d);
    Extent(d, 0);
    if d.snaps.Keys == {} {
      ReplayFromStart(p, d, shards, only, through, now);
    } else {
      var newest := Largest(d.snaps.Keys);
      StartOf(d);
      if Highest(d.snaps[newest].sequences) == through && d.firsts[0] > through {
        NothingToReplay(p, d, shards, only, through, now);
      } else {
        ReplayFromSnapshot(p, d, shards, only, through, now);
      }
    }
  }

  lemma ReplayFromStart(p: Platform, d: Disk, shards: nat, only: Option<nat>, through: uint64, now: int)
    requires LogOk(p, d) && Present(d.dir, d.firsts) && d.firsts[0] == 1 && shards > 0
    requires through <= d.durable
    ensures
      var r := ReplayOnto(p, d.dir, shards, only, NoSnapshot, map[], d.firsts, through);
      && (r.Reconstructed? <==> Boundary(d, through))
      && (r.Reconstructed? ==> RebuildsShard(p, shards, only, r.image, d.history, through, now))
  {
    hide Fold, KeyAt, WalkSegments, RebuildsShard, SegmentFile, AllEncodable, TornTail, StrictlyAscending, Lists;
    WalkThrough(p, d, 0, through);
    PlainReplay(p, shards, only, d.history, through, now);
  }

  lemma ReplayFromSnapshot(p: Platform, d: Disk, shards: nat, only: Option<nat>, through: uint64, now: int)
    requires DiskOk(p, d, now) && Present(d.dir, d.firsts) && shards > 0
    requires through <= d.durable
    requires d.snaps.Keys != {} && Largest(d.snaps.Keys) in d.snaps
    requires Highest(d.snaps[Largest(d.snaps.Keys)].sequences) <= through
    ensures
      var s := d.snaps[Largest(d.snaps.Keys)];
      var r := ReplayOnto(p, d.dir, shards, only, StateOf(s.sequences, shards), ImageOf(p, shards, only, s.items), d.firsts, through);
      && (r.Reconstructed? <==> Boundary(d, through))
      && (r.Reconstructed? ==> RebuildsShard(p, shards, only, r.image, d.history, through, now))
  {
    hide SC.WellFormed, SC.EncodeSnapshot, Fold, KeyAt, ImageOf, Lowest, Highest, Faithful, SegmentFile, WalkSegments,
         LastAtMost, Largest, AllEncodable, TornTail, StrictlyAscending, Lists, RebuildsShard;
    var newest := Largest(d.snaps.Keys);
    var s := d.snaps[newest];
    assert SnapOk(p, d, newest, now);
    StartOf(d);
    var start := LastAtMost(d.firsts, FirstRequired(newest));
    WalkThrough(p, d, start, through);
    FuzzySnapshot(p, s, shards, only, d.history, Before(d.firsts[start]), through, now);
  }

  /** The shortcut `recoverDurableImage` takes when the log starts past the boundary. */
  lemma NothingToReplay(p: Platform, d: Disk, shards: nat, only: Option<nat>, through: uint64, now: int)
    requires DiskOk(p, d, now) && shards > 0 && through <= d.durable
    requires d.snaps.Keys != {} && Largest(d.snaps.Keys) in d.snaps
    requires Highest(d.snaps[Largest(d.snaps.Keys)].sequences) == through && d.firsts[0] > through
    ensures RebuildsShard(p, shards, only, ImageOf(p, shards, only, d.snaps[Largest(d.snaps.Keys)].items), d.history, through, now)
  {
    hide SC.WellFormed, SC.EncodeSnapshot, KeyAt, ImageOf, Lowest, Highest, SegmentFile,
         Largest, AllEncodable, TornTail, StrictlyAscending, Lists;
    var newest := Largest(d.snaps.Keys);
    var s := d.snaps[newest];
    assert SnapOk(p, d, newest, now);
    FuzzySnapshot(p, s, shards, only, d.history, through, through, now);
    assert d.history[through..through] == [];
  }

  // ----- what recovery leaves behind is again such a directory -----

  lemma FaithfulPrefix(p: Platform, s: SC.Snapshot, h: History, h': History, n: nat, now: int, now': int)
    requires |s.sequences| > 0 && Highest(s.sequences) <= n <= |h| <= MAX_SEQUENCE && n <= |h'| <= MAX_SEQUENCE
    requires h[..n] == h'[..n] && now <= now'
    requires Faithful(p, s, h, now)
    ensures Faithful(p, s, h', now')
  {
    hide Lowest, Highest;
    forall k
      ensures FaithfulOn(p, s, h', now', k)
    {
      assert FaithfulOn(p, s, h, now, k);
      var c := CapturedAt(p, s, k);
      assert h[..c] == h[..n][..c] == h'[..n][..c] == h'[..c];
      KeyAtPrefix(h, h', c, k);
    }
  }
}
