/** Recovery of a whole directory: load the newest snapshot, walk the log behind
    it, and re-apply what the image does not already cover. */
module Recovery {
  import opened Base
  import opened Replay
  import opened Listing
  import opened SegmentRecovery
  import SC = SnapshotCodec

  /** A segment may not be named zero; a snapshot may. */
  type SegmentName = x: uint64 | x > 0 witness 1

  /** The installed files of a store, by the sequence their names carry. */
  datatype Directory = Directory(snapshots: map<uint64, Bytes>, segments: map<SegmentName, Bytes>)

  // ----- the snapshot as a base image -----

  datatype SnapshotState =
    | NoSnapshot
    | Loaded(lowest: uint64, highest: uint64, sequences: seq<uint64>, perShard: bool)

  function Lowest(sequences: seq<uint64>): (r: uint64)
    requires |sequences| > 0
    ensures r in sequences && forall s :: s in sequences ==> r <= s
  {
    var n := |sequences| - 1;
    assert sequences == sequences[..n] + [sequences[n]];
    if n == 0 || sequences[n] < Lowest(sequences[..n]) then sequences[n] else Lowest(sequences[..n])
  }

  function Highest(sequences: seq<uint64>): (r: uint64)
    requires |sequences| > 0
    ensures r in sequences && forall s :: s in sequences ==> s <= r
  {
    var n := |sequences| - 1;
    assert sequences == sequences[..n] + [sequences[n]];
    if n == 0 || sequences[n] > Highest(sequences[..n]) then sequences[n] else Highest(sequences[..n])
  }

  /** The positions in the header are kept only if they are positions of the
      configured shards. */
  function StateOf(sequences: seq<uint64>, shards: nat): SnapshotState
    requires |sequences| > 0
  {
    Loaded(Lowest(sequences), Highest(sequences), sequences, |sequences| == shards)
  }

  predicate ValidState(state: SnapshotState, shards: nat) {
    shards > 0 && (state.Loaded? && state.perShard ==> |state.sequences| == shards)
  }

  function FilterFor(state: SnapshotState, shards: nat, only: Option<nat>): (f: Filter)
    requires ValidState(state, shards)
    ensures ValidFilter(f)
  {
    match state
    case NoSnapshot => Filter(shards, Everywhere(0), only)
    case Loaded(lowest, _, sequences, perShard) =>
      Filter(shards, if perShard then PerShard(sequences) else Everywhere(lowest), only)
  }

  /** The image a list of entries loads to: a later entry replaces an earlier one. */
  function ToImage(items: seq<SC.Item>): Image {
    if items == [] then map[]
    else
      var n := |items| - 1;
      ToImage(items[..n])[items[n].key := items[n].entry]
  }

  /** The part of it that is kept; `only` is the shard being rebuilt, if just one is. */
  function ImageOf(p: Platform, shards: nat, only: Option<nat>, items: seq<SC.Item>): Image
    requires shards > 0
  {
    var image := ToImage(items);
    map k | k in image && (only.None? || ShardOf(p, shards, k) == only.value) :: image[k]
  }

  lemma ImageOfLookup(p: Platform, shards: nat, only: Option<nat>, items: seq<SC.Item>, k: Key)
    requires shards > 0
    ensures Lookup(ImageOf(p, shards, only, items), k)
         == if only.None? || ShardOf(p, shards, k) == only.value then Lookup(ToImage(items), k) else None
  {
  }

  /** One more entry. */
  lemma ImageOfNext(p: Platform, shards: nat, only: Option<nat>, items: seq<SC.Item>, item: SC.Item)
    requires shards > 0
    ensures
      var before := ImageOf(p, shards, only, items);
      ImageOf(p, shards, only, items + [item])
        == if only.None? || ShardOf(p, shards, item.key) == only.value then before[item.key := item.entry] else before
  {
    assert (items + [item])[..|items|] == items;
  }

  datatype Load = Load(state: SnapshotState, image: Image) | LoadRefused(fault: Fault, at: nat)

  function SnapshotNames(dir: Directory): (r: seq<uint64>)
    ensures Lists(r, dir.snapshots.Keys)
  {
    var names := Ascending(dir.snapshots.Keys);
    assert forall i :: 0 <= i < |names| ==> names[i] in names;
    names
  }

  function LoadSnapshot(p: Platform, dir: Directory, shards: nat, only: Option<nat>): (r: Load)
    requires shards > 0
    ensures r.Load? ==> ValidState(r.state, shards)
  {
    var names := SnapshotNames(dir);
    if names == [] then Load(NoSnapshot, map[])
    else
      var newest := names[|names| - 1];
      assert newest in names;
      match SC.ReadSnapshot(p, dir.snapshots[newest])
      case Unreadable(fault, at) => LoadRefused(fault, at)
      case Read(snapshot) =>
        SC.SnapshotCanonical(p, dir.snapshots[newest]);
        Load(StateOf(snapshot.sequences, shards), ImageOf(p, shards, only, snapshot.items))
  }

  // ----- walking the log -----

  function SegmentNames(dir: Directory): (r: seq<SegmentName>)
    ensures Lists(r, dir.segments.Keys)
  {
    var names := Ascending(dir.segments.Keys);
    assert forall i :: 0 <= i < |names| ==> names[i] in names;
    names
  }

  predicate Present(dir: Directory, names: seq<SegmentName>) {
    forall x :: x in names ==> x in dir.segments
  }

  /** Walk the listed segments from `index` on, up to those that start past
      `through`. With `trim`, the last one listed is the final segment and may
      end in a torn tail. */
  function WalkSegments(p: Platform, dir: Directory, names: seq<SegmentName>, index: nat, last: uint64, through: uint64, trim: bool): (w: Walk)
    requires index <= |names| && Present(dir, names)
    ensures w.Walked? ==> last + |w.ops| <= MAX_SEQUENCE
    ensures w.Walked? && index < |names| && through == MAX_SEQUENCE ==> w.offset <= |dir.segments[names[|names| - 1]]|
    decreases |names| - index
  {
    if index == |names| || names[index] > through then Walked([], 0, false)
    else
      var final := index + 1 == |names|;
      var w := WalkSegment(p, dir.segments[names[index]], names[index], trim && final, through, last);
      if w.Refused? || final then w
      else Prepend(w.ops, WalkSegments(p, dir, names, index + 1, last + |w.ops|, through, trim))
  }

  /** The first sequence the log has to supply behind a snapshot. */
  function FirstRequired(lowest: uint64): SegmentName {
    if lowest == MAX_SEQUENCE then lowest else lowest + 1
  }

  /** The sequence just before a segment's first record. */
  function Before(name: SegmentName): uint64 {
    var n: int := name;
    n - 1
  }

  // ----- `recoverLog` -----

  datatype Recovery =
    | Recovered(image: Image, sequence: uint64, offset: nat, dir: Directory)
    | RecoveryRefused(fault: Fault)

  function RecoverLog(p: Platform, dir: Directory, shards: nat): Recovery
    requires shards > 0
  {
    match LoadSnapshot(p, dir, shards, None)
    case LoadRefused(fault, _) => RecoveryRefused(fault)
    case Load(state, image) =>
      var names := SegmentNames(dir);
      if names == [] then RecoverWithoutLog(dir, state, image)
      else RecoverWithLog(p, dir, shards, state, image, names)
  }

  function RecoverWithoutLog(dir: Directory, state: SnapshotState, image: Image): Recovery {
    if state.Loaded? && state.lowest != state.highest then RecoveryRefused(SequenceGap)
    else if state.Loaded? && state.highest == MAX_SEQUENCE then RecoveryRefused(SequenceSpaceExhausted)
    else
      var next: SegmentName := if state.Loaded? then state.highest + 1 else 1;
      Recovered(image, next - 1, HEADER_SIZE, dir.(segments := dir.segments[next := SegmentHeader()]))
  }

  function RecoverWithLog(p: Platform, dir: Directory, shards: nat, state: SnapshotState, image: Image, names: seq<SegmentName>): Recovery
    requires ValidState(state, shards) && names != [] && Present(dir, names)
  {
    var required := if state.Loaded? then FirstRequired(state.lowest) else 1;
    if names[0] > required then RecoveryRefused(SequenceGap)
    else
      var start := if state.Loaded? then LastAtMost(names, required) else 0;
      var previous := if state.Loaded? then Before(names[start]) else 0;
      var w := WalkSegments(p, dir, names, start, previous, MAX_SEQUENCE, true);
      if w.Refused? then RecoveryRefused(w.fault)
      else
        var last := previous + |w.ops|;
        if state.Loaded? && last < state.highest then RecoveryRefused(SequenceGap)
        else
          var f := FilterFor(state, shards, None);
          var name := names[|names| - 1];
          var left := FileAfter(dir.segments[name], w);
          Recovered(Fold(p, f, image, w.ops, previous), last, w.offset, dir.(segments := dir.segments[name := left]))
  }

  // ----- `recoverDurableImage` -----

  datatype Reconstruction = Reconstructed(image: Image) | ReconstructionRefused(fault: Fault)

  /** The durable image through `through`, read back from the directory without
      changing it. */
  function RecoverImage(p: Platform, dir: Directory, shards: nat, only: Option<nat>, through: uint64): Reconstruction
    requires shards > 0
  {
    match LoadSnapshot(p, dir, shards, only)
    case LoadRefused(fault, _) => ReconstructionRefused(fault)
    case Load(state, image) =>
      if state.Loaded? && state.highest > through then ReconstructionRefused(SnapshotTooNew)
      else
        var names := SegmentNames(dir);
        if state.Loaded? && state.highest == through && (names == [] || names[0] > through)
        then Reconstructed(image)
        else ReplayOnto(p, dir, shards, only, state, image, names, through)
  }

  function ReplayOnto(p: Platform, dir: Directory, shards: nat, only: Option<nat>, state: SnapshotState, image: Image,
                      names: seq<SegmentName>, through: uint64): Reconstruction
    requires ValidState(state, shards) && Present(dir, names)
  {
    var required := if state.Loaded? then FirstRequired(state.lowest) else 1;
    if names == [] || names[0] > required then ReconstructionRefused(SequenceGap)
    else
      var start := if state.Loaded? then LastAtMost(names, required) else 0;
      var previous := if state.Loaded? then Before(names[start]) else 0;
      var w := WalkSegments(p, dir, names, start, previous, through, false);
      if w.Refused? then ReconstructionRefused(w.fault)
      else if previous + |w.ops| != through then ReconstructionRefused(SequenceGap)
      else Reconstructed(Fold(p, FilterFor(state, shards, only), image, w.ops, previous))
  }
}
