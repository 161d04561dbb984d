/** The recovery code as the loops it is written in, proved against its definition. */
module RecoveryProgram {
  import opened Base
  import opened LittleEndian
  import opened Frames
  import opened Replay
  import opened Listing
  import opened SegmentRecovery
  import R = Recovery
  import opened Recovery
  import SC = SnapshotCodec

  /** `newSnapshotState`: one pass for both bounds. */
  method NewSnapshotState(sequences: seq<uint64>, perShard: bool) returns (state: SnapshotState)
    requires |sequences| > 0
    ensures state == Loaded(Lowest(sequences), Highest(sequences), sequences, perShard)
  {
    hide Lowest, Highest;
    var lowest, highest := sequences[0], sequences[0];
    BoundsOfOne(sequences);
    for i := 1 to |sequences|
      invariant lowest == Lowest(sequences[..i]) && highest == Highest(sequences[..i])
    {
      BoundsOfNext(sequences, i);
      if sequences[i] < lowest { lowest := sequences[i]; }
      if sequences[i] > highest { highest := sequences[i]; }
    }
    assert sequences[..|sequences|] == sequences;
    state := Loaded(lowest, highest, sequences, perShard);
  }

  lemma BoundsOfOne(sequences: seq<uint64>)
    requires |sequences| > 0
    ensures Lowest(sequences[..1]) == Highest(sequences[..1]) == sequences[0]
  {
  }

  lemma BoundsOfNext(sequences: seq<uint64>, i: nat)
    requires 0 < i < |sequences|
    ensures Lowest(sequences[..i + 1]) == if sequences[i] < Lowest(sequences[..i]) then sequences[i] else Lowest(sequences[..i])
    ensures Highest(sequences[..i + 1]) == if sequences[i] > Highest(sequences[..i]) then sequences[i] else Highest(sequences[..i])
  {
    assert sequences[..i + 1][..i] == sequences[..i];
  }

  /** The header's sequences, slot by slot. */
  method ReadHeader(file: Bytes, shards: nat) returns (sequences: seq<uint64>)
    requires SC.FIXED_HEADER_SIZE + 8 * shards <= |file|
    ensures sequences == SC.ReadSequences(file, shards)
  {
    hide Get64;
    var rest := file[SC.FIXED_HEADER_SIZE..SC.FIXED_HEADER_SIZE + 8 * shards];
    ghost var whole := SC.DecodeSequences(rest, shards);
    sequences := [];
    for i := 0 to shards
      invariant |rest| == 8 * (shards - i)
      invariant whole == sequences + SC.DecodeSequences(rest, shards - i)
    {
      sequences := sequences + [Get64(rest[..8])];
      rest := rest[8..];
    }
  }

  /** `loadSnapshot` on the newest snapshot file: entries go into the image as they
      are read; nothing after a damaged byte is looked at. */
  method LoadSnapshotFile(p: Platform, file: Bytes, shards: nat, only: Option<nat>)
    returns (load: Load)
    requires shards > 0
    ensures
      var reading := SC.ReadSnapshot(p, file);
      && (reading.Unreadable? ==> load == LoadRefused(reading.fault, reading.at))
      && (reading.Read? ==>
            var snapshot := reading.snapshot;
            && |snapshot.sequences| > 0
            && load == Load(StateOf(snapshot.sequences, shards), ImageOf(p, shards, only, snapshot.items)))
  {
    hide ReadFrame, SC.Judge, SC.HeaderFault, SC.ReadSequences, EncodeFrame, ImageOf;
    match SC.HeaderFault(file)
    case Some(refused) => return LoadRefused(refused.fault, refused.at);
    case None =>
    var count: nat := Get32(file[8..12]);
    var sequences := ReadHeader(file, count);
    var offset := SC.FIXED_HEADER_SIZE + 8 * count;
    var image: Image := map[];
    assert ImageOf(p, shards, only, []) == map[] by { NothingLoaded(p, shards, only); }
    ghost var done: seq<SC.Item> := [];
    ghost var whole := SC.ItemsFrom(p, file, sequences, offset);
    while offset < |file|
      invariant offset <= |file|
      invariant whole == SC.Prepend(done, SC.ItemsFrom(p, file, sequences, offset))
      invariant image == ImageOf(p, shards, only, done)
      decreases |file| - offset
    {
      match ReadFrame(p, file, offset, SC.ITEM_FIXED_SIZE)
      case Short | Overrun => return LoadRefused(UnexpectedEof, offset);
      case Corrupt(_) => return LoadRefused(ChecksumMismatch, offset);
      case Framed(body, end) =>
        match SC.Judge(p, sequences, body)
        case Reject(fault) => return LoadRefused(fault, offset);
        case Accept(item) =>
          if only.None? || ShardOf(p, shards, item.key) == only.value {
            image := image[item.key := item.entry];
          }
          ImageOfNext(p, shards, only, done, item);
          SC.PrependTwice(done, [item], SC.ItemsFrom(p, file, sequences, end));
          done := done + [item];
          offset := end;
    }
    assert done + [] == done;
    assert whole.snapshot == SC.Snapshot(sequences, done);
    var state := NewSnapshotState(sequences, count == shards);
    load := Load(state, image);
  }

  lemma NothingLoaded(p: Platform, shards: nat, only: Option<nat>)
    requires shards > 0
    ensures ImageOf(p, shards, only, []) == map[]
  {
  }

  method LoadSnapshot(p: Platform, dir: Directory, shards: nat, only: Option<nat>) returns (load: Load)
    requires shards > 0
    ensures load == R.LoadSnapshot(p, dir, shards, only)
  {
    hide SC.ReadSnapshot, ImageOf;
    var names := SnapshotNames(dir);
    if names == [] { return Load(NoSnapshot, map[]); }
    var newest := names[|names| - 1];
    assert newest in names;
    load := LoadSnapshotFile(p, dir.snapshots[newest], shards, only);
  }

  /** The start segment: the last one that begins at or before what is required. */
  method ChooseStart(names: seq<SegmentName>, required: SegmentName) returns (start: nat)
    requires |names| > 0 && names[0] <= required && StrictlyAscending(names)
    ensures start == LastAtMost(names, required)
  {
    start := 0;
    for i := 0 to |names|
      invariant start < |names| && names[start] <= required
      invariant forall j :: start < j < i ==> names[j] > required
    {
      if names[i] <= required { start := i; }
    }
  }

  /** `recoverLog`. */
  method RecoverLog(p: Platform, dir: Directory, shards: nat) returns (r: Recovery)
    requires shards > 0
    ensures r == R.RecoverLog(p, dir, shards)
  {
    hide SC.ReadSnapshot, ImageOf, R.LoadSnapshot, SegmentNames, WalkSegment, LastAtMost, Fold;
    var load := LoadSnapshot(p, dir, shards, None);
    if load.LoadRefused? { return RecoveryRefused(load.fault); }
    var state, image := load.state, load.image;
    var names := SegmentNames(dir);
    if names == [] {
      if state.Loaded? && state.lowest != state.highest { return RecoveryRefused(SequenceGap); }
      if state.Loaded? && state.highest == MAX_SEQUENCE { return RecoveryRefused(SequenceSpaceExhausted); }
      var next: SegmentName := if state.Loaded? then state.highest + 1 else 1;
      return Recovered(image, next - 1, HEADER_SIZE, dir.(segments := dir.segments[next := SegmentHeader()]));
    }
    var start, previous: uint64 := 0, 0;
    if state.Loaded? {
      var required := FirstRequired(state.lowest);
      if names[0] > required { return RecoveryRefused(SequenceGap); }
      start := ChooseStart(names, required);
      previous := Before(names[start]);
    } else if names[0] > 1 {
      return RecoveryRefused(SequenceGap);
    }
    var w, last, recovered, left := ReplaySegments(p, dir, FilterFor(state, shards, None), image, names, start, previous);
    if w.Refused? { return RecoveryRefused(w.fault); }
    if state.Loaded? && last < state.highest { return RecoveryRefused(SequenceGap); }
    r := Recovered(recovered, last, w.offset, dir.(segments := dir.segments[names[|names| - 1] := left]));
  }

  /** The loop of `recoverLog`: segment after segment into one image, trimming the last. */
  method ReplaySegments(p: Platform, dir: Directory, f: Filter, base: Image, names: seq<SegmentName>, start: nat, previous: uint64)
    returns (w: Walk, last: uint64, image: Image, left: Bytes)
    requires ValidFilter(f) && Present(dir, names) && start < |names|
    ensures w == WalkSegments(p, dir, names, start, previous, MAX_SEQUENCE, true)
    ensures w.Walked? ==>
      && last == previous + |w.ops|
      && image == Fold(p, f, base, w.ops, previous)
      && w.offset <= |dir.segments[names[|names| - 1]]|
      && left == FileAfter(dir.segments[names[|names| - 1]], w)
  {
    hide WalkSegment, Fold;
    ghost var whole := WalkSegments(p, dir, names, start, previous, MAX_SEQUENCE, true);
    var done: seq<Op> := [];
    last, image, left := previous, base, [];
    assert Fold(p, f, base, [], previous) == base by { FoldNothing(p, f, base, previous); }
    var index := start;
    while index + 1 < |names|
      invariant start <= index < |names|
      invariant last == previous + |done|
      invariant image == Fold(p, f, base, done, previous)
      invariant whole == Prepend(done, WalkSegments(p, dir, names, index, last, MAX_SEQUENCE, true))
    {
      var name := names[index];
      var step, sequence, recovered, untouched := RecoverSegment(p, f, image, dir.segments[name], name, false, MAX_SEQUENCE, last);
      if step.Refused? { return step, last, image, left; }
      FoldAppend(p, f, base, done, step.ops, previous);
      PrependTwice(done, step.ops, WalkSegments(p, dir, names, index + 1, sequence, MAX_SEQUENCE, true));
      done, last, image := done + step.ops, sequence, recovered;
      index := index + 1;
    }
    var name := names[index];
    var step, sequence, recovered, kept := RecoverSegment(p, f, image, dir.segments[name], name, true, MAX_SEQUENCE, last);
    if step.Refused? { return step, last, image, left; }
    FoldAppend(p, f, base, done, step.ops, previous);
    w, last, image, left := Walked(done + step.ops, step.offset, step.torn), sequence, recovered, kept;
  }

  lemma FoldNothing(p: Platform, f: Filter, m: Image, base: nat)
    requires ValidFilter(f) && base <= MAX_SEQUENCE
    ensures Fold(p, f, m, [], base) == m
  {
  }

  /** `recoverDurableImage`. */
  method RecoverDurableImage(p: Platform, dir: Directory, shards: nat, only: Option<nat>, through: uint64) returns (r: Reconstruction)
    requires shards > 0
    ensures r == RecoverImage(p, dir, shards, only, through)
  {
    hide SC.ReadSnapshot, ImageOf, R.LoadSnapshot, SegmentNames, WalkSegments, LastAtMost, Fold;
    var load := LoadSnapshot(p, dir, shards, only);
    if load.LoadRefused? { return ReconstructionRefused(load.fault); }
    var state, image := load.state, load.image;
    if state.Loaded? && state.highest > through { return ReconstructionRefused(SnapshotTooNew); }
    var names := SegmentNames(dir);
    var start, previous: uint64 := 0, 0;
    if state.Loaded? {
      var required := FirstRequired(state.lowest);
      if state.highest == through && (names == [] || names[0] > through) { return Reconstructed(image); }
      if names == [] || names[0] > required { return ReconstructionRefused(SequenceGap); }
      start := ChooseStart(names, required);
      previous := Before(names[start]);
    } else if names == [] || names[0] > 1 {
      return ReconstructionRefused(SequenceGap);
    }
    var w, last, recovered := ReplayThrough(p, dir, FilterFor(state, shards, only), image, names, start, previous, through);
    if w.Refused? { return ReconstructionRefused(w.fault); }
    if last != through { return ReconstructionRefused(SequenceGap); }
    r := Reconstructed(recovered);
  }

  /** The loop of `recoverDurableImage`: nothing is trimmed, and segments that start
      past the boundary are not opened. */
  method ReplayThrough(p: Platform, dir: Directory, f: Filter, base: Image, names: seq<SegmentName>, start: nat, previous: uint64, through: uint64)
    returns (w: Walk, last: uint64, image: Image)
    requires ValidFilter(f) && Present(dir, names) && start < |names|
    ensures w.Refused? <==> WalkSegments(p, dir, names, start, previous, through, false).Refused?
    ensures w.Refused? ==> w == WalkSegments(p, dir, names, start, previous, through, false)
    ensures w.Walked? ==>
      && w.ops == WalkSegments(p, dir, names, start, previous, through, false).ops
      && last == previous + |w.ops|
      && image == Fold(p, f, base, w.ops, previous)
  {
    hide WalkSegment, Fold, WalkSegments;
    ghost var whole := WalkSegments(p, dir, names, start, previous, through, false);
    var done: seq<Op> := [];
    last, image := previous, base;
    assert Fold(p, f, base, [], previous) == base by { FoldNothing(p, f, base, previous); }
    var index := start;
    while index < |names| && names[index] <= through
      invariant start <= index <= |names|
      invariant last == previous + |done|
      invariant image == Fold(p, f, base, done, previous)
      invariant
        var rest := WalkSegments(p, dir, names, index, last, through, false);
        if rest.Refused? then whole == rest else whole.Walked? && whole.ops == done + rest.ops
    {
      var name := names[index];
      var step, sequence, recovered, untouched := RecoverSegment(p, f, image, dir.segments[name], name, false, through, last);
      ThroughStep(p, dir, names, index, last, through, done);
      if step.Refused? { return step, last, image; }
      FoldAppend(p, f, base, done, step.ops, previous);
      done, last, image := done + step.ops, sequence, recovered;
      index := index + 1;
    }
    ThroughEnd(p, dir, names, index, last, through);
    assert done + [] == done;
    w := Walked(done, 0, false);
  }

  /** One segment of a walk to a boundary. */
  lemma ThroughStep(p: Platform, dir: Directory, names: seq<SegmentName>, index: nat, last: uint64, through: uint64, done: seq<Op>)
    requires Present(dir, names) && index < |names| && names[index] <= through
    ensures
      var w := WalkSegment(p, dir.segments[names[index]], names[index], false, through, last);
      var here := WalkSegments(p, dir, names, index, last, through, false);
      if w.Refused? then here == w
      else
        var rest := WalkSegments(p, dir, names, index + 1, last + |w.ops|, through, false);
        if rest.Refused? then here == rest else here.Walked? && done + here.ops == (done + w.ops) + rest.ops
  {
    hide WalkSegment;
    var w := WalkSegment(p, dir.segments[names[index]], names[index], false, through, last);
    if w.Walked? {
      var rest := WalkSegments(p, dir, names, index + 1, last + |w.ops|, through, false);
      if rest.Walked? {
        assert done + (w.ops + rest.ops) == (done + w.ops) + rest.ops;
        assert index + 1 == |names| ==> rest.ops == [] && w.ops + rest.ops == w.ops;
      }
    }
  }

  lemma ThroughEnd(p: Platform, dir: Directory, names: seq<SegmentName>, index: nat, last: uint64, through: uint64)
    requires Present(dir, names) && index <= |names| && (index < |names| ==> names[index] > through)
    ensures WalkSegments(p, dir, names, index, last, through, false) == Walked([], 0, false)
  {
  }
}
