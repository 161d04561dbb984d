/** Properties of recovery on directories with arbitrary contents. */
module RecoveryProperties {
  import opened Base
  import opened Replay
  import opened Listing
  import opened WalCodec
  import opened SegmentRecovery
  import opened Recovery
  import SC = SnapshotCodec

  // ----- acceptance implies contiguity -----

  /** `file` is a segment with exactly these records, up to a torn tail if it may have one. */
  predicate Holds(p: Platform, file: Bytes, name: uint64, base: nat, ops: seq<Op>, mayTear: bool)
    requires base + |ops| <= MAX_SEQUENCE
  {
    && AllEncodable(ops)
    && (ops != [] ==> name == base + 1)
    && SegmentFile(p, base, ops) <= file
    && (file == SegmentFile(p, base, ops) || mayTear)
  }

  lemma WalkedHolds(p: Platform, file: Bytes, name: uint64, final: bool, previous: uint64)
    requires WalkSegment(p, file, name, final, MAX_SEQUENCE, previous).Walked?
    ensures
      var w := WalkSegment(p, file, name, final, MAX_SEQUENCE, previous);
      && previous + |w.ops| <= MAX_SEQUENCE
      && Holds(p, file, name, previous, w.ops, final)
      && FileAfter(file, w) == SegmentFile(p, previous, w.ops)
  {
    hide WalkFrom, HeaderFault, EncodeOps, Encodable, SegmentHeader;
    var w := WalkSegment(p, file, name, final, MAX_SEQUENCE, previous);
    HeaderCanonical(file);
    WalkCanonical(p, file, name, final, MAX_SEQUENCE, HEADER_SIZE, previous, true);
    assert file[..w.offset] == file[..HEADER_SIZE] + file[HEADER_SIZE..w.offset];
    assert file[..w.offset] == SegmentFile(p, previous, w.ops);
  }

  /** From `index` on, the listed segments hold `ops` one after the other: the first
      of them carries sequence `last + 1`, and each non-empty segment is named for
      its own first record. */
  ghost predicate Contiguous(p: Platform, dir: Directory, names: seq<SegmentName>, index: nat, last: nat, ops: seq<Op>)
    requires index <= |names| && Present(dir, names) && last + |ops| <= MAX_SEQUENCE
    decreases |names| - index
  {
    if index == |names| then ops == []
    else
      exists n ::
        && 0 <= n <= |ops|
        && Part(p, dir, names, index, last, ops, n)
        && Contiguous(p, dir, names, index + 1, last + n, ops[n..])
  }

  predicate Part(p: Platform, dir: Directory, names: seq<SegmentName>, index: nat, last: nat, ops: seq<Op>, n: nat)
    requires index < |names| && Present(dir, names) && n <= |ops| && last + |ops| <= MAX_SEQUENCE
  {
    Holds(p, dir.segments[names[index]], names[index], last, ops[..n], index + 1 == |names|)
  }

  lemma {:induction false} WalkedIsContiguous(p: Platform, dir: Directory, names: seq<SegmentName>, index: nat, last: uint64)
    requires index < |names| && Present(dir, names)
    requires WalkSegments(p, dir, names, index, last, MAX_SEQUENCE, true).Walked?
    ensures Contiguous(p, dir, names, index, last, WalkSegments(p, dir, names, index, last, MAX_SEQUENCE, true).ops)
    decreases |names| - index
  {
    hide WalkSegment, Holds;
    var ops := WalkSegments(p, dir, names, index, last, MAX_SEQUENCE, true).ops;
    var final := index + 1 == |names|;
    var file := dir.segments[names[index]];
    var w := WalkSegment(p, file, names[index], final, MAX_SEQUENCE, last);
    WalkedHolds(p, file, names[index], final, last);
    var n := |w.ops|;
    assert ops[..n] == w.ops;
    assert Part(p, dir, names, index, last, ops, n);
    if !final {
      WalkedIsContiguous(p, dir, names, index + 1, last + n);
      assert ops[n..] == WalkSegments(p, dir, names, index + 1, last + n, MAX_SEQUENCE, true).ops;
    } else {
      assert ops[n..] == [];
    }
  }

  /** Acceptance implies contiguity. Whatever bytes a directory holds, if `recoverLog`
      takes it and it has segments, then the segments from the chosen one on hold
      one unbroken run of records from its name to the returned sequence; behind a
      snapshot the run starts no later than its lowest sequence requires and
      reaches its highest. */
  lemma AcceptedIsContiguous(p: Platform, dir: Directory, shards: nat) returns (start: nat, ops: seq<Op>)
    requires shards > 0 && dir.segments.Keys != {}
    requires RecoverLog(p, dir, shards).Recovered?
    ensures
      var names := SegmentNames(dir);
      var state := LoadSnapshot(p, dir, shards, None).state;
      var r := RecoverLog(p, dir, shards);
      && start < |names|
      && Before(names[start]) + |ops| == r.sequence
      && Contiguous(p, dir, names, start, Before(names[start]), ops)
      && (state.NoSnapshot? ==> start == 0 && names[0] == 1)
      && (state.Loaded? ==> Before(names[start]) <= state.lowest && state.highest <= r.sequence)
      && r.image == Fold(p, FilterFor(state, shards, None), LoadSnapshot(p, dir, shards, None).image, ops, Before(names[start]))
  {
    hide LoadSnapshot, WalkSegments, Fold, Contiguous, LastAtMost;
    var names := SegmentNames(dir);
    SomeSegment(dir);
    var state := LoadSnapshot(p, dir, shards, None).state;
    start := if state.Loaded? then LastAtMost(names, FirstRequired(state.lowest)) else 0;
    ops := WalkSegments(p, dir, names, start, Before(names[start]), MAX_SEQUENCE, true).ops;
    WalkedIsContiguous(p, dir, names, start, Before(names[start]));
  }

  lemma SomeSegment(dir: Directory)
    requires dir.segments.Keys != {}
    ensures SegmentNames(dir) != []
  {
    if !(exists x :: x in dir.segments.Keys) { assert false; }
    var x :| x in dir.segments.Keys;
    assert x in SegmentNames(dir);
  }

  // ----- one shard at a time -----

  lemma {:induction false} FoldOneShard(p: Platform, f: Filter, shard: nat, m: Image, m': Image, ops: seq<Op>, base: nat, k: Key)
    requires ValidFilter(f) && f.only.None? && base + |ops| <= MAX_SEQUENCE
    requires Lookup(m', k) == if ShardOf(p, f.shards, k) == shard then Lookup(m, k) else None
    ensures ValidFilter(f.(only := Some(shard)))
    ensures Lookup(Fold(p, f.(only := Some(shard)), m', ops, base), k)
         == if ShardOf(p, f.shards, k) == shard then Lookup(Fold(p, f, m, ops, base), k) else None
    decreases |ops|
  {
    if ops != [] { FoldOneShard(p, f, shard, m, m', ops[..|ops| - 1], base, k); }
  }

  /** Rebuilding one configured shard is accepted exactly when rebuilding the whole
      image is, and holds exactly the whole image's entries of that shard. */
  lemma OneShardOfWhole(p: Platform, dir: Directory, shards: nat, shard: nat, through: uint64, k: Key)
    requires shards > 0
    ensures
      var whole := RecoverImage(p, dir, shards, None, through);
      var part := RecoverImage(p, dir, shards, Some(shard), through);
      && (part.Reconstructed? <==> whole.Reconstructed?)
      && (whole.Reconstructed? ==>
            Lookup(part.image, k) == if ShardOf(p, shards, k) == shard then Lookup(whole.image, k) else None)
  {
    hide LoadSnapshot, ReplayOnto, SegmentNames;
    LoadOneShard(p, dir, shards, shard, k);
    match LoadSnapshot(p, dir, shards, None)
    case LoadRefused(_, _) =>
    case Load(state, image) =>
      ReplayOneShard(p, dir, shards, shard, state, image, LoadSnapshot(p, dir, shards, Some(shard)).image,
                     SegmentNames(dir), through, k);
  }

  lemma LoadOneShard(p: Platform, dir: Directory, shards: nat, shard: nat, k: Key)
    requires shards > 0
    ensures
      var whole := LoadSnapshot(p, dir, shards, None);
      var part := LoadSnapshot(p, dir, shards, Some(shard));
      && (part.Load? <==> whole.Load?)
      && (whole.Load? ==>
            && part.state == whole.state
            && Lookup(part.image, k) == if ShardOf(p, shards, k) == shard then Lookup(whole.image, k) else None)
  {
    hide ImageOf, SC.ReadSnapshot, SC.WellFormed, StateOf;
    var names := SnapshotNames(dir);
    if names != [] {
      assert names[|names| - 1] in names;
      match SC.ReadSnapshot(p, dir.snapshots[names[|names| - 1]])
      case Unreadable(_, _) =>
      case Read(snapshot) =>
        SC.SnapshotCanonical(p, dir.snapshots[names[|names| - 1]]);
        SnapshotHasShards(p, snapshot);
        ImageOfLookup(p, shards, None, snapshot.items, k);
        ImageOfLookup(p, shards, Some(shard), snapshot.items, k);
    }
  }

  lemma SnapshotHasShards(p: Platform, s: SC.Snapshot)
    requires SC.WellFormed(p, s)
    ensures |s.sequences| > 0
  {
  }

  lemma ReplayOneShard(p: Platform, dir: Directory, shards: nat, shard: nat, state: SnapshotState, m: Image, m': Image,
                       names: seq<SegmentName>, through: uint64, k: Key)
    requires ValidState(state, shards) && Present(dir, names)
    requires Lookup(m', k) == if ShardOf(p, shards, k) == shard then Lookup(m, k) else None
    ensures
      var whole := ReplayOnto(p, dir, shards, None, state, m, names, through);
      var part := ReplayOnto(p, dir, shards, Some(shard), state, m', names, through);
      && (part.Reconstructed? <==> whole.Reconstructed?)
      && (whole.Reconstructed? ==>
            Lookup(part.image, k) == if ShardOf(p, shards, k) == shard then Lookup(whole.image, k) else None)
  {
    hide Fold, WalkSegments, LastAtMost;
    if ReplayOnto(p, dir, shards, None, state, m, names, through).Reconstructed? {
      var required := if state.Loaded? then FirstRequired(state.lowest) else 1;
      var start := if state.Loaded? then LastAtMost(names, required) else 0;
      var previous := if state.Loaded? then Before(names[start]) else 0;
      var w := WalkSegments(p, dir, names, start, previous, through, false);
      FoldOneShard(p, FilterFor(state, shards, None), shard, m, m', w.ops, previous, k);
    }
  }

  /** Joining the shards gives the whole image back. */
  lemma ShardsMakeTheWhole(p: Platform, dir: Directory, shards: nat, through: uint64, k: Key)
    requires shards > 0 && RecoverImage(p, dir, shards, None, through).Reconstructed?
    ensures
      var part := RecoverImage(p, dir, shards, Some(ShardOf(p, shards, k)), through);
      part.Reconstructed? && Lookup(part.image, k) == Lookup(RecoverImage(p, dir, shards, None, through).image, k)
    ensures forall i :: 0 <= i < shards && i != ShardOf(p, shards, k) ==>
      var part := RecoverImage(p, dir, shards, Some(i), through);
      part.Reconstructed? && k !in part.image
  {
    hide RecoverImage;
    OneShardOfWhole(p, dir, shards, ShardOf(p, shards, k), through, k);
    forall i | 0 <= i < shards && i != ShardOf(p, shards, k)
      ensures
        var part := RecoverImage(p, dir, shards, Some(i), through);
        part.Reconstructed? && k !in part.image
    {
      OneShardOfWhole(p, dir, shards, i, through, k);
    }
  }

  // ----- compaction and concurrent writes -----

  function UpTo(s: set<int>, bound: int): set<int> { set x | x in s && x <= bound }

  /** The part of a listing up to one of its names. */
  lemma ListingUpTo(s: set<int>, bound: int) returns (n: nat)
    requires bound in s
    ensures 0 < n <= |Ascending(s)| && Ascending(s)[n - 1] == bound
    ensures Ascending(s)[..n] == Ascending(UpTo(s, bound))
  {
    hide Ascending, UpTo;
    var r := Ascending(s);
    assert bound in r;
    var i :| 0 <= i < |r| && r[i] == bound;
    n := i + 1;
    ListedUpTo(s, r, bound, n);
    AscendingIsUnique(r[..n], UpTo(s, bound));
  }

  lemma ListedUpTo(s: set<int>, r: seq<int>, bound: int, n: nat)
    requires Lists(r, s) && StrictlyAscending(r) && 0 < n <= |r| && r[n - 1] == bound
    ensures Lists(r[..n], UpTo(s, bound)) && StrictlyAscending(r[..n])
  {
    forall x
      ensures x in r[..n] <==> x in UpTo(s, bound)
    {
      if x in UpTo(s, bound) {
        assert x in r;
        var j :| 0 <= j < |r| && r[j] == x;
        assert r[..n][j] == x;
      }
    }
  }

  /** The two directories agree on everything at or below `through`, and the writer
      has rolled past it in both. */
  ghost predicate SamePast(dir: Directory, dir': Directory, through: uint64) {
    && dir.snapshots == dir'.snapshots
    && through < MAX_SEQUENCE && through + 1 in dir.segments && through + 1 in dir'.segments
    && (forall x :: x <= through ==> (x in dir.segments <==> x in dir'.segments))
    && (forall x :: x <= through && x in dir.segments && x in dir'.segments ==> dir.segments[x] == dir'.segments[x])
  }

  lemma SameNames(dir: Directory, dir': Directory, through: uint64) returns (n: nat)
    requires SamePast(dir, dir', through)
    ensures 0 < n <= |SegmentNames(dir)| && n <= |SegmentNames(dir')|
    ensures SegmentNames(dir)[..n] == SegmentNames(dir')[..n] && SegmentNames(dir)[n - 1] == through + 1
  {
    hide Ascending, Lists;
    n := ListingUpTo(dir.segments.Keys, through + 1);
    var n' := ListingUpTo(dir'.segments.Keys, through + 1);
    SameUpTo(dir, dir', through);
    assert n == |SegmentNames(dir)[..n]| == |SegmentNames(dir')[..n']| == n';
  }

  lemma SameUpTo(dir: Directory, dir': Directory, through: uint64)
    requires SamePast(dir, dir', through)
    ensures UpTo(dir.segments.Keys, through + 1) == UpTo(dir'.segments.Keys, through + 1)
  {
    var a, b := UpTo(dir.segments.Keys, through + 1), UpTo(dir'.segments.Keys, through + 1);
    forall x
      ensures x in a <==> x in b
    {
      if x in a && x <= through { assert x in dir'.segments; }
      if x in b && x <= through { assert x in dir.segments; }
    }
  }

  lemma {:induction false} SameWalk(p: Platform, dir: Directory, dir': Directory, names: seq<SegmentName>, names': seq<SegmentName>,
                                    n: nat, index: nat, last: uint64, through: uint64)
    requires SamePast(dir, dir', through) && Present(dir, names) && Present(dir', names')
    requires index < n <= |names| && n <= |names'| && names[..n] == names'[..n] && names[n - 1] == through + 1
    requires StrictlyAscending(names)
    ensures WalkSegments(p, dir, names, index, last, through, false) == WalkSegments(p, dir', names', index, last, through, false)
    decreases n - index
  {
    hide WalkSegment;
    assert names[index] == names[..n][index] == names'[..n][index] == names'[index];
    assert names'[n - 1] == names'[..n][n - 1] == names[..n][n - 1] == through + 1;
    if names[index] <= through {
      assert index + 1 < n;
      var w := WalkSegment(p, dir.segments[names[index]], names[index], false, through, last);
      if w.Walked? {
        SameWalk(p, dir, dir', names, names', n, index + 1, last + |w.ops|, through);
      }
    }
  }

  lemma SameStart(names: seq<SegmentName>, names': seq<SegmentName>, n: nat, bound: int)
    requires 0 < n <= |names| && n <= |names'| && names[..n] == names'[..n] && bound <= names[n - 1]
    requires StrictlyAscending(names) && StrictlyAscending(names') && names[0] <= bound
    ensures names'[0] <= bound && LastAtMost(names, bound) == LastAtMost(names', bound) < n
  {
    var i, i' := LastAtMost(names, bound), LastAtMost(names', bound);
    assert names'[0] == names'[..n][0] == names[..n][0] == names[0];
    assert names'[n - 1] == names'[..n][n - 1] == names[..n][n - 1] == names[n - 1];
    assert i < n && i' < n;
    assert names[i] == names[..n][i] == names'[..n][i] == names'[i];
    assert names[i'] == names[..n][i'] == names'[..n][i'] == names'[i'];
  }

  lemma SameReplay(p: Platform, dir: Directory, dir': Directory, shards: nat, only: Option<nat>, state: SnapshotState, image: Image, through: uint64)
    requires SamePast(dir, dir', through) && ValidState(state, shards)
    requires state.Loaded? ==> state.lowest <= through
    ensures ReplayOnto(p, dir, shards, only, state, image, SegmentNames(dir), through)
         == ReplayOnto(p, dir', shards, only, state, image, SegmentNames(dir'), through)
  {
    hide WalkSegments, Fold, SegmentNames, LastAtMost, SamePast;
    var n := SameNames(dir, dir', through);
    var names, names' := SegmentNames(dir), SegmentNames(dir');
    assert names[0] == names[..n][0] == names'[..n][0] == names'[0];
    var required := if state.Loaded? then FirstRequired(state.lowest) else 1;
    if names[0] <= required {
      SameStart(names, names', n, required);
      var start := if state.Loaded? then LastAtMost(names, required) else 0;
      assert names[start] == names[..n][start] == names'[..n][start] == names'[start];
      SameWalk(p, dir, dir', names, names', n, start, if state.Loaded? then Before(names[start]) else 0, through);
    }
  }

  lemma SameLoad(p: Platform, dir: Directory, dir': Directory, shards: nat, only: Option<nat>)
    requires shards > 0 && dir.snapshots == dir'.snapshots
    ensures LoadSnapshot(p, dir, shards, only) == LoadSnapshot(p, dir', shards, only)
  {
    hide SC.ReadSnapshot, ImageOf, SC.WellFormed;
  }

  /** Compaction is independent of concurrent writes: once the writer has rolled to
      `through + 1`, reconstruction through `through` gives the same result whatever
      is appended or rolled afterwards. */
  lemma CompactionIndependent(p: Platform, dir: Directory, dir': Directory, shards: nat, only: Option<nat>, through: uint64)
    requires shards > 0 && SamePast(dir, dir', through)
    ensures RecoverImage(p, dir, shards, only, through) == RecoverImage(p, dir', shards, only, through)
  {
    hide LoadSnapshot, ReplayOnto, SegmentNames, SamePast;
    SameLoad(p, dir, dir', shards, only) by { SamePastSnapshots(dir, dir', through); }
    match LoadSnapshot(p, dir, shards, only)
    case LoadRefused(_, _) =>
    case Load(state, image) =>
      ReadHighest(p, dir, shards, only);
      var n := SameNames(dir, dir', through);
      assert SegmentNames(dir)[0] == SegmentNames(dir)[..n][0] == SegmentNames(dir')[..n][0] == SegmentNames(dir')[0];
      if !(state.Loaded? && state.highest > through) {
        SameReplay(p, dir, dir', shards, only, state, image, through);
      }
  }

  lemma SamePastSnapshots(dir: Directory, dir': Directory, through: uint64)
    requires SamePast(dir, dir', through)
    ensures dir.snapshots == dir'.snapshots
  {
  }

  lemma ReadHighest(p: Platform, dir: Directory, shards: nat, only: Option<nat>)
    requires shards > 0 && LoadSnapshot(p, dir, shards, only).Load?
    ensures var state := LoadSnapshot(p, dir, shards, only).state; state.Loaded? ==> state.lowest <= state.highest
  {
    hide SC.ReadSnapshot, ImageOf, SC.WellFormed;
    var names := SnapshotNames(dir);
    if names != [] {
      assert names[|names| - 1] in names;
      match SC.ReadSnapshot(p, dir.snapshots[names[|names| - 1]])
      case Unreadable(_, _) =>
      case Read(snapshot) =>
        SC.SnapshotCanonical(p, dir.snapshots[names[|names| - 1]]);
        SnapshotHasShards(p, snapshot);
        var lowest := Lowest(snapshot.sequences);
        assert lowest in snapshot.sequences;
    }
  }
}
