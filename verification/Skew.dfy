/** What can be concluded from a snapshot whose shards stand at different sequences,
    on directories with arbitrary contents. */
module Skew {
  import opened Base
  import opened Replay
  import opened Listing
  import opened SegmentRecovery
  import opened Recovery
  import opened DiskLayout
  import opened RecoveryCorrectness
  import opened RecoveryProperties
  import SC = SnapshotCodec

  // ----- why the log has to reach the highest sequence -----

  /** `k0` is set just past `end`, `k1` at the very end. */
  function Overtaken(k0: Key, k1: Key, end: nat, hi: nat): (h: History)
    ensures |h| == hi
  {
    seq(hi, i => if i < end then Delete(k0) else if i == end then Set(k0, [], 0) else if i + 1 < hi then Delete(k1) else Set(k1, [], 0))
  }

  lemma {:induction false} OvertakenKey(k0: Key, k1: Key, end: nat, hi: nat, n: nat, k: Key)
    requires k0 != k1 && end + 1 < hi <= MAX_SEQUENCE && n <= hi
    ensures KeyAt(Overtaken(k0, k1, end, hi), n, k)
         == if k == k0 && n > end then Some(Entry([], 0, end + 1))
            else if k == k1 && n == hi then Some(Entry([], 0, hi))
            else None
    decreases n
  {
    if n > 0 { OvertakenKey(k0, k1, end, hi, n - 1, k); }
  }

  /** The demand that the log reach the snapshot's highest sequence is what makes a
      skewed image correct. For any skew of two shards and any log that ends two or
      more records short of the highest sequence there are a history and an exact
      snapshot such that what recovery would build is the replay of no prefix of the
      history at all, neither with the per-shard filter nor, for any other shard
      count, with the lowest-sequence filter. */
  lemma HighestCheckNeeded(p: Platform, k0: Key, k1: Key, start: nat, lo: nat, end: nat, hi: nat) returns (s: SC.Snapshot, h: History)
    requires ShardOf(p, 2, k0) == 0 && ShardOf(p, 2, k1) == 1
    requires start <= lo <= end && end + 1 < hi <= MAX_SEQUENCE
    ensures s.sequences == [lo, hi] && |h| == hi && Lowest(s.sequences) == lo && Highest(s.sequences) == hi
    ensures |k1| <= 0xFFFF ==> SC.WellFormed(p, s)
    ensures forall now :: Faithful(p, s, h, now)
    ensures forall shards: nat, n: nat, now :: shards > 0 && n <= |h| ==>
      !Rebuilds(ReplayedOnto(p, s, shards, None, h, start, end), h, n, now)
  {
    hide Fold, KeyAt, Lowest, Highest, SC.WellFormed, ReplayedOnto, Overtaken;
    h := Overtaken(k0, k1, end, hi);
    s := SC.Snapshot([lo, hi], [SC.Item(k1, Entry([], 0, hi))]);
    PairBounds(lo, hi);
    OvertakenIsFaithful(p, s, k0, k1, end, hi);
    OvertakenIsWellFormed(p, s, k1);
    forall shards: nat, n: nat, now | shards > 0 && n <= |h|
      ensures !Rebuilds(ReplayedOnto(p, s, shards, None, h, start, end), h, n, now)
    {
      OvertakenIsLost(p, s, k0, k1, start, end, hi, shards);
      var image := ReplayedOnto(p, s, shards, None, h, start, end);
      OvertakenKey(k0, k1, end, hi, n, k0);
      OvertakenKey(k0, k1, end, hi, n, k1);
      assert !Agrees(Lookup(image, k0), KeyAt(h, n, k0), now) || !Agrees(Lookup(image, k1), KeyAt(h, n, k1), now);
    }
  }

  lemma PairBounds(lo: uint64, hi: uint64)
    requires lo < hi
    ensures Lowest([lo, hi]) == lo && Highest([lo, hi]) == hi
  {
    var s: seq<uint64> := [lo, hi];
    assert s[0] in s && s[1] in s;
  }

  lemma SingleImage(key: Key, entry: Entry)
    ensures ToImage([SC.Item(key, entry)]) == map[key := entry]
  {
    assert [SC.Item(key, entry)][..0] == [];
  }

  lemma OvertakenIsWellFormed(p: Platform, s: SC.Snapshot, k1: Key)
    requires |s.sequences| == 2 && ShardOf(p, 2, k1) == 1 && s.items == [SC.Item(k1, Entry([], 0, s.sequences[1]))]
    ensures |k1| <= 0xFFFF ==> SC.WellFormed(p, s)
  {
    assert PowerOfTwo(1);
  }

  lemma OvertakenIsFaithful(p: Platform, s: SC.Snapshot, k0: Key, k1: Key, end: nat, hi: nat)
    requires ShardOf(p, 2, k0) == 0 && ShardOf(p, 2, k1) == 1 && end + 1 < hi <= MAX_SEQUENCE
    requires |s.sequences| == 2 && s.sequences[0] <= end && s.sequences[1] == hi == Highest(s.sequences)
    requires s.items == [SC.Item(k1, Entry([], 0, hi))]
    ensures forall now :: Faithful(p, s, Overtaken(k0, k1, end, hi), now)
  {
    hide KeyAt, Lowest, Highest, Overtaken, ToImage;
    SingleImage(k1, Entry([], 0, hi));
    forall now, k
      ensures FaithfulOn(p, s, Overtaken(k0, k1, end, hi), now, k)
    {
      OvertakenKey(k0, k1, end, hi, CapturedAt(p, s, k), k);
    }
  }

  /** What recovery would build from it: `k1` from the image, `k0` never. */
  lemma OvertakenIsLost(p: Platform, s: SC.Snapshot, k0: Key, k1: Key, start: nat, end: nat, hi: nat, shards: nat)
    requires k0 != k1 && start <= end && end + 1 < hi <= MAX_SEQUENCE && shards > 0
    requires |s.sequences| > 0 && s.items == [SC.Item(k1, Entry([], 0, hi))]
    ensures
      var image := ReplayedOnto(p, s, shards, None, Overtaken(k0, k1, end, hi), start, end);
      Lookup(image, k1) == Some(Entry([], 0, hi)) && Lookup(image, k0) == None
  {
    hide Fold, KeyAt, Lowest, Highest, ToImage;
    var h := Overtaken(k0, k1, end, hi);
    var f := FilterFor(StateOf(s.sequences, shards), shards, None);
    var base := ImageOf(p, shards, None, s.items);
    SingleImage(k1, Entry([], 0, hi));
    FoldOthers(p, f, base, h[start..end], start, k1);
    OvertakenKey(k0, k1, end, hi, end, k0);
    FoldWithinCover(p, f, base, h, start, end, k0);
  }

  /** One record short is the only distance that does no harm: the result is then the
      replay of a prefix, with or without the missing record. */
  lemma OneRecordShort(p: Platform, s: SC.Snapshot, shards: nat, h: History, start: nat, end: nat, now: int)
    requires |s.sequences| > 0 && shards > 0 && start <= Lowest(s.sequences)
    requires start <= end && Highest(s.sequences) == end + 1 <= |h| <= MAX_SEQUENCE && Faithful(p, s, h, now)
    ensures
      var image := ReplayedOnto(p, s, shards, None, h, start, end);
      Rebuilds(image, h, end, now) || Rebuilds(image, h, end + 1, now)
  {
    hide Fold, KeyAt, Lowest, Highest, ReplayedOnto;
    var image := ReplayedOnto(p, s, shards, None, h, start, end);
    var last := h[end].key;
    ShortKey(p, s, shards, h, start, end, now, last);
    var n := if Agrees(Lookup(image, last), KeyAt(h, end, last), now) then end else end + 1;
    forall k
      ensures Agrees(Lookup(image, k), KeyAt(h, n, k), now)
    {
      ShortKey(p, s, shards, h, start, end, now, k);
      if k != last { KeyAtQuiet(h, end, end + 1, k); }
    }
  }

  lemma ShortKey(p: Platform, s: SC.Snapshot, shards: nat, h: History, start: nat, end: nat, now: int, k: Key)
    requires |s.sequences| > 0 && shards > 0 && start <= Lowest(s.sequences)
    requires start <= end && Highest(s.sequences) == end + 1 <= |h| <= MAX_SEQUENCE && Faithful(p, s, h, now)
    ensures
      var held := Lookup(ReplayedOnto(p, s, shards, None, h, start, end), k);
      Agrees(held, KeyAt(h, end, k), now) || Agrees(held, KeyAt(h, end + 1, k), now)
  {
    hide Fold, KeyAt, Lowest, Highest, ToImage;
    var f := FilterFor(StateOf(s.sequences, shards), shards, None);
    var base := ImageOf(p, shards, None, s.items);
    var c := CapturedAt(p, s, k);
    assert FaithfulOn(p, s, h, now, k);
    ImageOfLookup(p, shards, None, s.items, k);
    if c <= end {
      FoldBeyondCover(p, f, base, h, start, c, end, k, now);
    } else {
      FoldWithinCover(p, f, base, h, start, end, k);
    }
  }

  // ----- what an accepted reconstruction is worth -----

  /** The snapshot that is loaded from the directory. */
  ghost predicate Newest(p: Platform, dir: Directory, s: SC.Snapshot) {
    var names := SnapshotNames(dir);
    && names != [] && names[|names| - 1] in dir.snapshots
    && SC.ReadSnapshot(p, dir.snapshots[names[|names| - 1]]) == SC.Read(s)
  }

  lemma NewestLoads(p: Platform, dir: Directory, s: SC.Snapshot, shards: nat, only: Option<nat>)
    requires Newest(p, dir, s) && shards > 0
    ensures |s.sequences| > 0
    ensures LoadSnapshot(p, dir, shards, only) == Load(StateOf(s.sequences, shards), ImageOf(p, shards, only, s.items))
  {
    hide SC.ReadSnapshot, ImageOf, SC.WellFormed, StateOf;
    var names := SnapshotNames(dir);
    SC.SnapshotCanonical(p, dir.snapshots[names[|names| - 1]]);
    SnapshotHasShards(p, s);
  }

  /** The records a reconstruction walks are those of the history. */
  ghost predicate LogHolds(p: Platform, dir: Directory, state: SnapshotState, through: uint64, h: History) {
    var names := SegmentNames(dir);
    var required := if state.Loaded? then FirstRequired(state.lowest) else 1;
    names != [] && names[0] <= required ==>
      var start := if state.Loaded? then LastAtMost(names, required) else 0;
      var previous := if state.Loaded? then Before(names[start]) else 0;
      var w := WalkSegments(p, dir, names, start, previous, through, false);
      w.Walked? ==> previous + |w.ops| <= |h| && w.ops == h[previous..previous + |w.ops|]
  }

  /** A history this directory may stand for: the snapshot is exact on it and the
      segments hold its records. */
  ghost predicate Fits(p: Platform, dir: Directory, s: SC.Snapshot, shards: nat, through: uint64, h: History, now: int)
    requires |s.sequences| > 0
  {
    && Highest(s.sequences) <= through <= |h| <= MAX_SEQUENCE
    && Faithful(p, s, h, now)
    && LogHolds(p, dir, StateOf(s.sequences, shards), through, h)
  }

  /** The directories on which `recoverDurableImage` takes a skewed image for a
      complete one: the snapshot reaches `through` in some shard, not in all, and
      the log starts past `through`. */
  predicate SkewTakenAsIs(dir: Directory, state: SnapshotState, through: uint64)
    requires state.Loaded?
  {
    state.lowest < state.highest == through && (SegmentNames(dir) == [] || SegmentNames(dir)[0] > through)
  }

  predicate Rebuilt(p: Platform, shards: nat, only: Option<nat>, k: Key)
    requires shards > 0
  {
    only.None? || ShardOf(p, shards, k) == only.value
  }

  /** Some entry of the image carries sequence `q`. */
  ghost predicate Carried(m: Image, q: nat) { exists k :: k in m && m[k].sequence == q }

  /** Record `q` is past what the image covers of `k`, and no entry says whose it was. */
  ghost predicate Open(p: Platform, s: SC.Snapshot, through: uint64, k: Key, q: nat)
    requires |s.sequences| > 0
  {
    CapturedAt(p, s, k) < q <= through && !Carried(ToImage(s.items), q)
  }

  ghost predicate SomeOpen(p: Platform, s: SC.Snapshot, shards: nat, only: Option<nat>, through: uint64)
    requires |s.sequences| > 0 && shards > 0
  {
    exists k, q :: Rebuilt(p, shards, only, k) && Open(p, s, through, k, q)
  }

  /** The rebuilt image is the replay, whichever of the possible histories was the real one. */
  ghost predicate RightForAll(p: Platform, dir: Directory, s: SC.Snapshot, shards: nat, only: Option<nat>, through: uint64, now: int)
    requires |s.sequences| > 0 && shards > 0 && RecoverImage(p, dir, shards, only, through).Reconstructed?
  {
    forall h :: Fits(p, dir, s, shards, through, h, now) ==>
      RebuildsShard(p, shards, only, RecoverImage(p, dir, shards, only, through).image, h, through, now)
  }

  /** An accepted reconstruction without a snapshot is the replay of the records it read. */
  lemma AcceptedWithoutSnapshot(p: Platform, dir: Directory, shards: nat, only: Option<nat>, through: uint64, h: History, now: int)
    requires shards > 0 && SnapshotNames(dir) == [] && RecoverImage(p, dir, shards, only, through).Reconstructed?
    requires through <= |h| <= MAX_SEQUENCE && LogHolds(p, dir, NoSnapshot, through, h)
    ensures RebuildsShard(p, shards, only, RecoverImage(p, dir, shards, only, through).image, h, through, now)
  {
    hide Fold, KeyAt, WalkSegments, SegmentNames, RebuildsShard;
    PlainReplay(p, shards, only, h, through, now);
  }

  /** An accepted reconstruction that does not take a skewed image as it is gives the
      replay, whole or for one shard, of every history the directory may stand for. */
  lemma AcceptedIsReplay(p: Platform, dir: Directory, s: SC.Snapshot, shards: nat, only: Option<nat>, through: uint64, h: History, now: int)
    requires shards > 0 && Newest(p, dir, s) && RecoverImage(p, dir, shards, only, through).Reconstructed?
    requires |s.sequences| > 0 && Fits(p, dir, s, shards, through, h, now)
    requires !SkewTakenAsIs(dir, StateOf(s.sequences, shards), through)
    ensures RebuildsShard(p, shards, only, RecoverImage(p, dir, shards, only, through).image, h, through, now)
  {
    hide Fold, KeyAt, WalkSegments, SegmentNames, RebuildsShard, LoadSnapshot, Lowest, Highest, Faithful, ImageOf, LastAtMost, Newest;
    NewestLoads(p, dir, s, shards, only);
    var names := SegmentNames(dir);
    var lowest, highest := Lowest(s.sequences), Highest(s.sequences);
    LowestIsLowest(s.sequences);
    if highest == through && (names == [] || names[0] > through) {
      FuzzySnapshot(p, s, shards, only, h, through, through, now);
      NothingFolded(p, s, shards, only, h, through);
    } else {
      var start := LastAtMost(names, FirstRequired(lowest));
      FuzzySnapshot(p, s, shards, only, h, Before(names[start]), through, now);
    }
  }

  lemma LowestIsLowest(sequences: seq<uint64>)
    requires |sequences| > 0
    ensures Lowest(sequences) <= Highest(sequences)
  {
    assert Lowest(sequences) in sequences;
  }

  lemma NothingFolded(p: Platform, s: SC.Snapshot, shards: nat, only: Option<nat>, h: History, n: nat)
    requires |s.sequences| > 0 && shards > 0 && n <= |h| <= MAX_SEQUENCE
    ensures ReplayedOnto(p, s, shards, only, h, n, n) == ImageOf(p, shards, only, s.items)
  {
    assert h[n..n] == [];
  }

  // ----- `recoverLog` has no such exception -----

  /** The records recovery walks are those of the history. */
  ghost predicate WholeLogHolds(p: Platform, dir: Directory, state: SnapshotState, h: History) {
    var names := SegmentNames(dir);
    var required := if state.Loaded? then FirstRequired(state.lowest) else 1;
    names != [] && names[0] <= required ==>
      var start := if state.Loaded? then LastAtMost(names, required) else 0;
      var previous := if state.Loaded? then Before(names[start]) else 0;
      var w := WalkSegments(p, dir, names, start, previous, MAX_SEQUENCE, true);
      w.Walked? ==> previous + |w.ops| <= |h| && w.ops == h[previous..previous + |w.ops|]
  }

  /** Whatever a directory holds, a snapshot that `recoverLog` accepts together with the
      log behind it gives the replay, through the returned sequence, of every history
      on which the snapshot is exact and whose records the segments hold. */
  lemma AcceptedLogIsReplay(p: Platform, dir: Directory, s: SC.Snapshot, shards: nat, h: History, now: int)
    requires shards > 0 && Newest(p, dir, s) && RecoverLog(p, dir, shards).Recovered?
    requires |s.sequences| > 0 && Highest(s.sequences) <= |h| <= MAX_SEQUENCE && Faithful(p, s, h, now)
    requires WholeLogHolds(p, dir, StateOf(s.sequences, shards), h)
    ensures
      var r := RecoverLog(p, dir, shards);
      r.sequence <= |h| && Highest(s.sequences) <= r.sequence && Rebuilds(r.image, h, r.sequence, now)
  {
    hide Fold, KeyAt, WalkSegments, SegmentNames, LoadSnapshot, Lowest, Highest, Faithful, ImageOf, LastAtMost, Newest;
    NewestLoads(p, dir, s, shards, None);
    var names := SegmentNames(dir);
    var lowest, highest := Lowest(s.sequences), Highest(s.sequences);
    if names == [] {
      FuzzySnapshot(p, s, shards, None, h, highest, highest, now);
      NothingFolded(p, s, shards, None, h, highest);
    } else {
      var start := LastAtMost(names, FirstRequired(lowest));
      FuzzySnapshot(p, s, shards, None, h, Before(names[start]), RecoverLog(p, dir, shards).sequence, now);
    }
  }

  /** The same without a snapshot. */
  lemma AcceptedLogWithoutSnapshot(p: Platform, dir: Directory, shards: nat, h: History, now: int)
    requires shards > 0 && SnapshotNames(dir) == [] && RecoverLog(p, dir, shards).Recovered?
    requires |h| <= MAX_SEQUENCE && WholeLogHolds(p, dir, NoSnapshot, h)
    ensures
      var r := RecoverLog(p, dir, shards);
      r.sequence <= |h| && Rebuilds(r.image, h, r.sequence, now)
  {
    hide Fold, KeyAt, WalkSegments, SegmentNames;
    PlainReplay(p, shards, None, h, RecoverLog(p, dir, shards).sequence, now);
    if SegmentNames(dir) == [] { NothingRecovered(p, shards, h); }
  }

  lemma NothingRecovered(p: Platform, shards: nat, h: History)
    requires shards > 0 && |h| <= MAX_SEQUENCE
    ensures Fold(p, FilterFor(NoSnapshot, shards, None), map[], h[0..0], 0) == map[]
  {
  }

  // ----- the skewed image taken as it is -----

  /** In every possible history the entries of the image are the records they name. */
  lemma EntryIsRecord(p: Platform, s: SC.Snapshot, h: History, now: int, k: Key)
    requires |s.sequences| > 0 && Highest(s.sequences) <= |h| <= MAX_SEQUENCE && Faithful(p, s, h, now)
    requires k in ToImage(s.items)
    ensures
      var e := ToImage(s.items)[k];
      1 <= e.sequence <= CapturedAt(p, s, k) && h[e.sequence - 1] == Set(k, e.value, e.deadline)
  {
    hide KeyAt, ToImage, Lowest, Highest;
    assert FaithfulOn(p, s, h, now, k);
    KeyAtRecord(h, CapturedAt(p, s, k), k);
  }

  /** Where every record past a key's cover is carried by an entry, the image taken as
      it is happens to be right for that key. */
  lemma ClosedKey(p: Platform, s: SC.Snapshot, through: uint64, h: History, now: int, k: Key)
    requires |s.sequences| > 0 && Highest(s.sequences) <= through <= |h| <= MAX_SEQUENCE && Faithful(p, s, h, now)
    requires forall q :: !Open(p, s, through, k, q)
    ensures Agrees(Lookup(ToImage(s.items), k), KeyAt(h, through, k), now)
  {
    hide KeyAt, ToImage, Lowest, Highest, Faithful;
    var c := CapturedAt(p, s, k);
    assert FaithfulOn(p, s, h, now, k) by { FaithfulAt(p, s, h, now, k); }
    forall i | c <= i < through
      ensures h[i].key != k
    {
      assert !Open(p, s, through, k, i + 1);
      var owner :| owner in ToImage(s.items) && ToImage(s.items)[owner].sequence == i + 1;
      EntryIsRecord(p, s, h, now, owner);
    }
    KeyAtQuiet(h, c, through, k);
  }

  lemma FaithfulAt(p: Platform, s: SC.Snapshot, h: History, now: int, k: Key)
    requires |s.sequences| > 0 && Highest(s.sequences) <= |h| <= MAX_SEQUENCE && Faithful(p, s, h, now)
    ensures FaithfulOn(p, s, h, now, k)
  {
  }

  /** Another history with the same entries: record `q` sets `k`, the rest is about `other`. */
  ghost function Refilled(m: Image, h: History, n: nat, k: Key, q: nat, other: Key): (r: History)
    requires n <= |h|
    ensures |r| == n
  {
    seq(n, i requires 0 <= i < n => if Carried(m, i + 1) then h[i] else if i + 1 == q then Set(k, [], 0) else Delete(other))
  }

  ghost predicate Recorded(m: Image, h: History, k: Key)
    requires k in m
  {
    1 <= m[k].sequence <= |h| && h[m[k].sequence - 1] == Set(k, m[k].value, m[k].deadline)
  }

  lemma {:induction false} RefilledKey(m: Image, h: History, n: nat, k: Key, q: nat, other: Key, c: nat, x: Key)
    requires c <= n <= |h| <= MAX_SEQUENCE && 0 < q && !Carried(m, q) && other !in m && other != k
    requires forall y :: y in m ==> Recorded(m, h, y)
    requires k in m ==> m[k].sequence < q
    ensures KeyAt(Refilled(m, h, n, k, q, other), c, x)
         == if x == k && q <= c then Some(Entry([], 0, q))
            else if x in m && m[x].sequence <= c then Some(m[x])
            else None
    decreases c
  {
    if c > 0 {
      RefilledKey(m, h, n, k, q, other, c - 1, x);
      assert x in m ==> Recorded(m, h, x);
      if Carried(m, c) {
        var y :| y in m && m[y].sequence == c;
        assert Recorded(m, h, y);
      } else {
        assert x in m ==> m[x].sequence != c;
      }
    }
  }

  lemma {:induction false} LengthBound(keys: set<Key>) returns (n: nat)
    ensures forall k :: k in keys ==> |k| <= n
  {
    n := 0;
    if keys != {} {
      if !(exists k :: k in keys) { assert false; }
      var k :| k in keys;
      var m := LengthBound(keys - {k});
      n := if |k| > m then |k| else m;
      forall x | x in keys
        ensures |x| <= n
      {
        if x != k { assert x in keys - {k}; }
      }
    }
  }

  lemma UnusedKey(keys: set<Key>) returns (k: Key)
    ensures k !in keys
  {
    var n := LengthBound(keys);
    k := seq(n + 1, _ => 0);
  }

  /** Where some record is open, it is wrong: the same directory may stand for another
      history, of which the image taken as it is is not the replay. */
  lemma OpenIsWrong(p: Platform, dir: Directory, s: SC.Snapshot, shards: nat, only: Option<nat>, through: uint64, h: History, now: int,
                    k: Key, q: nat) returns (h': History)
    requires shards > 0 && Newest(p, dir, s) && RecoverImage(p, dir, shards, only, through).Reconstructed?
    requires |s.sequences| > 0 && Fits(p, dir, s, shards, through, h, now)
    requires SkewTakenAsIs(dir, StateOf(s.sequences, shards), through)
    requires Rebuilt(p, shards, only, k) && Open(p, s, through, k, q)
    ensures Fits(p, dir, s, shards, through, h', now)
    ensures !RebuildsShard(p, shards, only, RecoverImage(p, dir, shards, only, through).image, h', through, now)
  {
    hide KeyAt, ToImage, Lowest, Highest, Newest, LoadSnapshot, SegmentNames, Faithful, Carried, Refilled, WalkSegments, LastAtMost;
    var m := ToImage(s.items);
    var other := UnusedKey(m.Keys + {k});
    h' := Refilled(m, h, through, k, q, other);
    forall y | y in m
      ensures Recorded(m, h, y) && m[y].sequence <= CapturedAt(p, s, y)
    {
      EntryIsRecord(p, s, h, now, y);
    }
    forall x
      ensures FaithfulOn(p, s, h', now, x)
    {
      RefilledKey(m, h, through, k, q, other, CapturedAt(p, s, x), x);
    }
    AllFaithful(p, s, h', now);
    NewestLoads(p, dir, s, shards, only);
    ImageOfLookup(p, shards, only, s.items, k);
    RefilledKey(m, h, through, k, q, other, through, k);
    assert !Agrees(Lookup(ImageOf(p, shards, only, s.items), k), KeyAt(h', through, k), now);
  }

  lemma AllFaithful(p: Platform, s: SC.Snapshot, h: History, now: int)
    requires |s.sequences| > 0 && Highest(s.sequences) <= |h| <= MAX_SEQUENCE && forall k :: FaithfulOn(p, s, h, now, k)
    ensures Faithful(p, s, h, now)
  {
  }

  /** Exactly when an accepted reconstruction can be relied on. It is the replay of
      every history the directory may stand for, if and only if it did not take a
      skewed image as it is, or no record past what that image covers is open. */
  lemma ReliableIffClosed(p: Platform, dir: Directory, s: SC.Snapshot, shards: nat, only: Option<nat>, through: uint64, h: History, now: int)
    requires shards > 0 && Newest(p, dir, s) && RecoverImage(p, dir, shards, only, through).Reconstructed?
    requires |s.sequences| > 0 && Fits(p, dir, s, shards, through, h, now)
    ensures RightForAll(p, dir, s, shards, only, through, now)
       <==> !(SkewTakenAsIs(dir, StateOf(s.sequences, shards), through) && SomeOpen(p, s, shards, only, through))
  {
    hide Newest, LogHolds, Faithful, RebuildsShard, RecoverImage, SkewTakenAsIs, Open, Lowest, Highest;
    if !SkewTakenAsIs(dir, StateOf(s.sequences, shards), through) {
      forall g | Fits(p, dir, s, shards, through, g, now)
        ensures RebuildsShard(p, shards, only, RecoverImage(p, dir, shards, only, through).image, g, through, now)
      {
        AcceptedIsReplay(p, dir, s, shards, only, through, g, now);
      }
    } else if SomeOpen(p, s, shards, only, through) {
      var k, q :| Rebuilt(p, shards, only, k) && Open(p, s, through, k, q);
      var g := OpenIsWrong(p, dir, s, shards, only, through, h, now, k, q);
    } else {
      forall g | Fits(p, dir, s, shards, through, g, now)
        ensures RebuildsShard(p, shards, only, RecoverImage(p, dir, shards, only, through).image, g, through, now)
      {
        ClosedIsRight(p, dir, s, shards, only, through, g, now);
      }
    }
  }

  lemma ClosedIsRight(p: Platform, dir: Directory, s: SC.Snapshot, shards: nat, only: Option<nat>, through: uint64, h: History, now: int)
    requires shards > 0 && Newest(p, dir, s) && RecoverImage(p, dir, shards, only, through).Reconstructed?
    requires |s.sequences| > 0 && Fits(p, dir, s, shards, through, h, now)
    requires SkewTakenAsIs(dir, StateOf(s.sequences, shards), through) && !SomeOpen(p, s, shards, only, through)
    ensures RebuildsShard(p, shards, only, RecoverImage(p, dir, shards, only, through).image, h, through, now)
  {
    hide KeyAt, ToImage, Lowest, Highest, Newest, LoadSnapshot, SegmentNames, Faithful, Open, LogHolds, ImageOf;
    NewestLoads(p, dir, s, shards, only);
    forall k
      ensures if Rebuilt(p, shards, only, k) then Agrees(Lookup(ImageOf(p, shards, only, s.items), k), KeyAt(h, through, k), now)
              else k !in ImageOf(p, shards, only, s.items)
    {
      ImageOfLookup(p, shards, only, s.items, k);
      if Rebuilt(p, shards, only, k) { ClosedKey(p, s, through, h, now, k); }
    }
  }

  /** Such a directory exists for every platform that puts some key into the first of
      two shards: `recoverLog` refuses it, `recoverDurableImage` takes it, and the image
      it builds lacks a record of the history. */
  lemma SkewExample(p: Platform, k0: Key) returns (dir: Directory, s: SC.Snapshot, h: History)
    requires ShardOf(p, 2, k0) == 0
    ensures |s.sequences| == 2 && Newest(p, dir, s) && SkewTakenAsIs(dir, StateOf(s.sequences, 2), 2)
    ensures RecoverLog(p, dir, 2) == RecoveryRefused(SequenceGap)
    ensures RecoverImage(p, dir, 2, None, 2).Reconstructed?
    ensures forall now :: Fits(p, dir, s, 2, 2, h, now)
    ensures |h| == 2 && forall now :: !Rebuilds(RecoverImage(p, dir, 2, None, 2).image, h, 2, now)
  {
    hide SC.EncodeSnapshot, SC.ReadSnapshot, SegmentHeader, WalkSegments, Fold, Lowest, Highest, Faithful, KeyAt, ImageOf;
    s := SC.Snapshot([1, 2], []);
    h := [Delete(k0), Set(k0, [], 0)];
    assert PowerOfTwo(1);
    assert SC.WellFormed(p, s);
    dir := Directory(map[1 := SC.EncodeSnapshot(p, s)], map[3 := SegmentHeader()]);
    SC.SnapshotRoundTrip(p, s);
    AscendingIsUnique([1], dir.snapshots.Keys);
    AscendingIsUnique([3], dir.segments.Keys);
    PairBounds(1, 2);
    NewestLoads(p, dir, s, 2, None);
    ExampleHistory(p, k0);
    var image := ImageOf(p, 2, None, s.items);
    assert !Agrees(Lookup(image, k0), KeyAt(h, 2, k0), 0) by { ImageOfLookup(p, 2, None, s.items, k0); }
  }

  lemma ExampleHistory(p: Platform, k0: Key)
    requires ShardOf(p, 2, k0) == 0
    ensures
      var h := [Delete(k0), Set(k0, [], 0)];
      && KeyAt(h, 2, k0) == Some(Entry([], 0, 2))
      && Highest([1, 2]) == 2
      && forall now :: Faithful(p, SC.Snapshot([1, 2], []), h, now)
  {
    hide Lowest, Highest;
    PairBounds(1, 2);
    var s := SC.Snapshot([1, 2], []);
    var h := [Delete(k0), Set(k0, [], 0)];
    forall now, k
      ensures FaithfulOn(p, s, h, now, k)
    {
      assert KeyAt(h, 0, k) == None;
      assert KeyAt(h, 1, k) == None;
      assert k != k0 ==> KeyAt(h, 2, k) == None;
    }
  }

  /** No directory of a store is like that: its log always starts where the newest
      snapshot needs it to. */
  lemma StoreNeverSkews(p: Platform, d: Disk, shards: nat, only: Option<nat>, through: uint64, now: int)
    requires DiskOk(p, d, now) && shards > 0
    ensures
      var load := LoadSnapshot(p, d.dir, shards, only);
      load.Load? && (load.state.Loaded? ==> !SkewTakenAsIs(d.dir, load.state, through))
  {
    hide LoadSnapshot, SC.WellFormed, SC.EncodeSnapshot, Lowest, Highest, Faithful, SegmentFile, SegmentNames, Largest, ImageOf;
    LoadNewest(p, d, shards, only, now);
    NamesOf(p, d);
  }
}
