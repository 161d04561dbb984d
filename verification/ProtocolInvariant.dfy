/** What every step of the protocol keeps. */
module ProtocolInvariant {
  import opened Base
  import opened Replay
  import opened Listing
  import opened WalCodec
  import opened Recovery
  import opened DiskLayout
  import opened DiskSteps
  import opened Protocol
  import SC = SnapshotCodec

  // ----- memory -----

  /** Bounds that make the other parts of the invariant meaningful. */
  ghost predicate Bounds(p: Platform, s: State) {
    && ValidShards(s.shards) && s.shards > 0
    && s.disk.durable <= |s.disk.history| <= MAX_SEQUENCE
    && s.acked <= s.published <= s.disk.durable
    && (s.lock.Held? ==> s.lock.shard < s.shards)
    && (s.lock.Held? && s.lock.record ==>
          && s.published < s.disk.durable
          && s.lock.shard == ShardOf(p, s.shards, s.disk.history[s.published].key))
    && (!s.latched ==> s.disk.durable == |s.disk.history| && s.disk.tail == [])
  }

  /** How much of the history a key's shard reflects: through `logSequence`, or one
      record more while the writer holds the shard with that record in it. */
  function Reflected(p: Platform, s: State, k: Key): nat
    requires s.shards > 0
  {
    if s.lock.Held? && s.lock.record && s.lock.shard == ShardOf(p, s.shards, k) then s.published + 1 else s.published
  }

  /** Nothing has been evicted from the key's shard by this process. */
  predicate Complete(p: Platform, s: State, k: Key)
    requires s.shards > 0
  {
    s.generation == 0 && !(s.lock.Held? && s.lock.evicted && s.lock.shard == ShardOf(p, s.shards, k))
  }

  predicate KeyOk(p: Platform, s: State, k: Key)
    requires s.shards > 0 && Reflected(p, s, k) <= |s.disk.history| <= MAX_SEQUENCE
  {
    var held := Lookup(s.mem, k);
    var truth := KeyAt(s.disk.history, Reflected(p, s, k), k);
    && (held.None? || held == truth)
    && (Complete(p, s, k) ==> Agrees(held, truth, s.now))
  }

  /** The capture invariant: memory never shows anything but the replayed history,
      and misses only what has expired or been evicted. */
  ghost predicate MemOk(p: Platform, s: State)
    requires Bounds(p, s)
  {
    forall k :: KeyOk(p, s, k)
  }

  // ----- the snapshot task -----

  /** Every installed snapshot lies at or below `sequence`. */
  ghost predicate SnapsBelow(s: State, sequence: nat) {
    forall name :: name in s.disk.snaps ==>
      |s.disk.snaps[name].sequences| > 0 && Highest(s.disk.snaps[name].sequences) <= sequence
  }

  predicate SequenceOk(s: State, sequences: seq<uint64>, i: nat)
    requires i < |sequences|
  {
    sequences[i] <= s.published
  }

  /** An entry written to the image is the state of its key where its shard was captured. */
  predicate ItemOk(p: Platform, s: State, sequences: seq<uint64>, item: SC.Item)
    requires s.shards > 0 && s.published <= |s.disk.history| <= MAX_SEQUENCE
  {
    var shard := ShardOf(p, s.shards, item.key);
    && shard < |sequences| && sequences[shard] <= s.published
    && KeyAt(s.disk.history, sequences[shard], item.key) == Some(item.entry)
  }

  /** A captured shard holds every key of its, unless an eviction has since been counted. */
  predicate CapturedOk(p: Platform, s: State, sequences: seq<uint64>, items: seq<SC.Item>, exact: bool, k: Key)
    requires s.shards > 0 && s.published <= |s.disk.history| <= MAX_SEQUENCE
  {
    var shard := ShardOf(p, s.shards, k);
    shard < |sequences| ==>
      && sequences[shard] <= s.published
      && (exact ==> Agrees(Lookup(ToImage(items), k), KeyAt(s.disk.history, sequences[shard], k), s.now))
  }

  ghost predicate CaptureOk(p: Platform, s: State, sequences: seq<uint64>, items: seq<SC.Item>, exact: bool)
    requires s.shards > 0 && s.published <= |s.disk.history| <= MAX_SEQUENCE
  {
    && |sequences| <= s.shards
    && (forall i :: 0 <= i < |sequences| ==> SequenceOk(s, sequences, i))
    && (forall i :: 0 <= i < |sequences| ==> SnapsBelow(s, sequences[i]))
    && (forall i :: 0 <= i < |items| ==> ItemOk(p, s, sequences, items[i]))
    && (forall k :: CapturedOk(p, s, sequences, items, exact, k))
  }

  ghost predicate TaskOk(p: Platform, s: State)
    requires Bounds(p, s)
  {
    match s.task
    case Idle => true
    case Capturing(sequences, items) => CaptureOk(p, s, sequences, items, s.generation == 0)
    case Reconstructing(through) => through <= s.published && SnapsBelow(s, through) && through + 1 in s.disk.firsts
    case Ready(snapshot, seen) =>
      && |snapshot.sequences| == s.shards
      && (seen.Some? ==> seen.value <= s.generation)
      && CaptureOk(p, s, snapshot.sequences, snapshot.items, seen.None? || seen.value == s.generation)
    case Cleaning(name) => s.disk.snaps.Keys != {} && Largest(s.disk.snaps.Keys) == name
  }

  ghost predicate Inv(p: Platform, s: State) {
    && Bounds(p, s)
    && DiskOk(p, s.disk, s.now)
    && SnapsBelow(s, s.published)
    && MemOk(p, s)
    && TaskOk(p, s)
  }

  /** What the invariant gives the transition relation to stand on. */
  lemma InvBasics(p: Platform, s: State)
    requires Inv(p, s)
    ensures s.shards > 0 && Shape(s.disk) && LastName(s.disk) in s.disk.dir.segments && s.published <= s.disk.durable
  {
    hide MemOk, TaskOk, SnapOk, Reaches, Lists, FileOf, TornTail;
    assert SegmentOk(p, s.disk, |s.disk.firsts| - 1);
  }

  // ----- frames: what growth of the log and the passing of time leave alone -----

  ghost predicate SameView(p: Platform, s: State, s': State) {
    && s'.shards == s.shards && s'.mem == s.mem && s'.generation == s.generation
    && s'.published == s.published && s'.lock == s.lock && s.now <= s'.now
    && s.disk.durable <= |s.disk.history| && s.disk.durable <= |s'.disk.history|
    && s.disk.history[..s.disk.durable] == s'.disk.history[..s.disk.durable]
  }

  lemma PrefixKey(h: History, h': History, n: nat, m: nat, k: Key)
    requires n <= m <= |h| <= MAX_SEQUENCE && m <= |h'| <= MAX_SEQUENCE && h[..m] == h'[..m]
    ensures KeyAt(h, n, k) == KeyAt(h', n, k)
  {
    hide KeyAt;
    assert h[..n] == h[..m][..n] == h'[..m][..n] == h'[..n];
    KeyAtPrefix(h, h', n, k);
  }

  lemma MemKept(p: Platform, s: State, s': State)
    requires Bounds(p, s) && Bounds(p, s') && MemOk(p, s) && SameView(p, s, s')
    ensures MemOk(p, s')
  {
    hide KeyAt;
    forall k
      ensures KeyOk(p, s', k)
    {
      assert KeyOk(p, s, k);
      PrefixKey(s.disk.history, s'.disk.history, Reflected(p, s, k), s.disk.durable, k);
    }
  }

  /** What a capture may rely on: nothing captured is undone by later steps. */
  ghost predicate Later(s: State, s': State) {
    && s'.shards == s.shards && s.now <= s'.now && s.published <= s'.published
    && s.published <= |s.disk.history| <= MAX_SEQUENCE && s'.published <= |s'.disk.history| <= MAX_SEQUENCE
    && s.disk.history[..s.published] == s'.disk.history[..s.published]
  }

  lemma ItemKept(p: Platform, s: State, s': State, sequences: seq<uint64>, item: SC.Item)
    requires s.shards > 0 && Later(s, s') && ItemOk(p, s, sequences, item)
    ensures ItemOk(p, s', sequences, item)
  {
    hide KeyAt;
    PrefixKey(s.disk.history, s'.disk.history, sequences[ShardOf(p, s.shards, item.key)], s.published, item.key);
  }

  lemma CapturedKept(p: Platform, s: State, s': State, sequences: seq<uint64>, items: seq<SC.Item>, exact: bool, exact': bool, k: Key)
    requires s.shards > 0 && Later(s, s') && (exact' ==> exact)
    requires CapturedOk(p, s, sequences, items, exact, k)
    ensures CapturedOk(p, s', sequences, items, exact', k)
  {
    hide KeyAt, ToImage;
    var shard := ShardOf(p, s.shards, k);
    if shard < |sequences| {
      PrefixKey(s.disk.history, s'.disk.history, sequences[shard], s.published, k);
    }
  }

  lemma CaptureKept(p: Platform, s: State, s': State, sequences: seq<uint64>, items: seq<SC.Item>, exact: bool, exact': bool)
    requires s.shards > 0 && Later(s, s') && (exact' ==> exact)
    requires CaptureOk(p, s, sequences, items, exact) && s'.disk.snaps == s.disk.snaps
    ensures CaptureOk(p, s', sequences, items, exact')
  {
    hide KeyAt, ToImage, ItemOk, CapturedOk, Later, Highest;
    LaterBounds(s, s');
    forall i | 0 <= i < |sequences|
      ensures SequenceOk(s', sequences, i)
    {
      assert SequenceOk(s, sequences, i);
    }
    forall i | 0 <= i < |sequences|
      ensures SnapsBelow(s', sequences[i])
    {
      assert SnapsBelow(s, sequences[i]);
    }
    forall i | 0 <= i < |items|
      ensures ItemOk(p, s', sequences, items[i])
    {
      ItemKept(p, s, s', sequences, items[i]);
    }
    forall k
      ensures CapturedOk(p, s', sequences, items, exact', k)
    {
      assert CapturedOk(p, s, sequences, items, exact, k);
      CapturedKept(p, s, s', sequences, items, exact, exact', k);
    }
  }

  lemma LaterBounds(s: State, s': State)
    requires Later(s, s')
    ensures s'.shards == s.shards && s.published <= s'.published <= |s'.disk.history| <= MAX_SEQUENCE
    ensures s.published <= |s.disk.history| <= MAX_SEQUENCE
  {
  }

  /** The snapshot task survives every step that leaves it and the snapshots alone. */
  lemma TaskKept(p: Platform, s: State, s': State)
    requires Bounds(p, s) && Bounds(p, s') && TaskOk(p, s) && Later(s, s')
    requires s'.task == s.task && s'.disk.snaps == s.disk.snaps && s.generation <= s'.generation
    requires forall x :: x in s.disk.firsts ==> x in s'.disk.firsts
    ensures TaskOk(p, s')
  {
    hide CaptureOk, Largest, Highest;
    match s.task
    case Idle =>
    case Capturing(sequences, items) =>
      CaptureKept(p, s, s', sequences, items, s.generation == 0, s'.generation == 0);
    case Reconstructing(through) =>
      assert SnapsBelow(s', through);
    case Ready(snapshot, seen) =>
      CaptureKept(p, s, s', snapshot.sequences, snapshot.items,
                  seen.None? || seen.value == s.generation, seen.None? || seen.value == s'.generation);
    case Cleaning(name) =>
  }
}
