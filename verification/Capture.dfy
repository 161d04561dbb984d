/** Assembling an image: from memory shard by shard, or from reconstructed parts. */
module Capture {
  import opened Base
  import opened Replay
  import opened WalCodec
  import opened Recovery
  import opened DiskLayout
  import opened RecoveryCorrectness
  import opened RecoveryProperties
  import opened Protocol
  import opened ProtocolInvariant
  import SC = SnapshotCodec

  // ----- lists of entries -----

  lemma {:induction false} ToImageAppend(a: seq<SC.Item>, b: seq<SC.Item>, k: Key)
    ensures Lookup(ToImage(a + b), k) == if k in ToImage(b) then Some(ToImage(b)[k]) else Lookup(ToImage(a), k)
    decreases |b|
  {
    if b == [] {
      assert a + b == a;
    } else {
      var n := |b| - 1;
      assert (a + b)[..|a| + n] == a + b[..n];
      ToImageAppend(a, b[..n], k);
    }
  }

  lemma {:induction false} ToImageKey(items: seq<SC.Item>, k: Key) returns (i: nat)
    requires k in ToImage(items)
    ensures i < |items| && items[i].key == k
    decreases |items|
  {
    var n := |items| - 1;
    if items[n].key == k { i := n; } else { i := ToImageKey(items[..n], k); }
  }

  // ----- capture from memory -----

  /** Entries listed from a shard the writer does not hold are their keys' states at `logSequence`. */
  lemma ListedItem(p: Platform, s: State, i: nat, part: seq<SC.Item>, j: nat, sequences: seq<uint64>)
    requires Inv(p, s) && !(s.lock.Held? && s.lock.shard == i) && j < |part|
    requires Enumerates(part, ShardPart(p, s.shards, s.mem, i))
    requires |sequences| == i && s.published <= MAX_SEQUENCE
    ensures ItemOk(p, s, sequences + [s.published], part[j])
  {
    hide KeyAt, DiskOk, TaskOk, SnapsBelow, ToImage;
    assert KeyOk(p, s, part[j].key);
  }

  lemma CapturedNew(p: Platform, s: State, sequences: seq<uint64>, items: seq<SC.Item>, part: seq<SC.Item>, k: Key)
    requires Inv(p, s) && |sequences| < s.shards && !(s.lock.Held? && s.lock.shard == |sequences|)
    requires CaptureOk(p, s, sequences, items, s.generation == 0)
    requires Enumerates(part, ShardPart(p, s.shards, s.mem, |sequences|))
    ensures CapturedOk(p, s, sequences + [s.published], items + part, s.generation == 0, k)
  {
    hide KeyAt, DiskOk, TaskOk, SnapsBelow, ToImage;
    var shard := ShardOf(p, s.shards, k);
    assert KeyOk(p, s, k);
    assert CapturedOk(p, s, sequences, items, s.generation == 0, k);
    ToImageAppend(items, part, k);
    CapturedKeys(p, s, sequences, items, k);
  }

  lemma CapturedKeys(p: Platform, s: State, sequences: seq<uint64>, items: seq<SC.Item>, k: Key)
    requires s.shards > 0 && s.published <= |s.disk.history| <= MAX_SEQUENCE
    requires forall i :: 0 <= i < |items| ==> ItemOk(p, s, sequences, items[i])
    ensures k in ToImage(items) ==> ShardOf(p, s.shards, k) < |sequences|
  {
    hide KeyAt, ToImage;
    if k in ToImage(items) {
      var j := ToImageKey(items, k);
      assert ItemOk(p, s, sequences, items[j]);
    }
  }

  /** Reading one more shard under its lock keeps the capture exact. */
  lemma CaptureOne(p: Platform, s: State, sequences: seq<uint64>, items: seq<SC.Item>, part: seq<SC.Item>)
    requires Inv(p, s) && |sequences| < s.shards && !(s.lock.Held? && s.lock.shard == |sequences|)
    requires CaptureOk(p, s, sequences, items, s.generation == 0)
    requires Enumerates(part, ShardPart(p, s.shards, s.mem, |sequences|))
    ensures CaptureOk(p, s, sequences + [s.published], items + part, s.generation == 0)
  {
    hide KeyAt, DiskOk, TaskOk, ToImage, MemOk, CapturedOk, ItemOk, Enumerates, Highest;
    var sequences' := sequences + [s.published];
    forall i | 0 <= i < |sequences'|
      ensures SequenceOk(s, sequences', i)
    {
      if i < |sequences| { assert SequenceOk(s, sequences, i); }
    }
    forall i | 0 <= i < |sequences'|
      ensures SnapsBelow(s, sequences'[i])
    {
      if i < |sequences| { assert SnapsBelow(s, sequences[i]); }
    }
    forall i | 0 <= i < |items + part|
      ensures ItemOk(p, s, sequences', (items + part)[i])
    {
      if i < |items| {
        assert ItemOk(p, s, sequences, items[i]);
        OldItem(p, s, sequences, items[i]);
      } else {
        ListedItem(p, s, |sequences|, part, i - |items|, sequences);
      }
    }
    var items', exact := items + part, s.generation == 0;
    forall k
      ensures CapturedOk(p, s, sequences', items', exact, k)
    {
      CapturedNew(p, s, sequences, items, part, k);
    }
  }

  lemma OldItem(p: Platform, s: State, sequences: seq<uint64>, item: SC.Item)
    requires s.shards > 0 && s.published <= |s.disk.history| <= MAX_SEQUENCE && ItemOk(p, s, sequences, item)
    ensures ItemOk(p, s, sequences + [s.published], item)
  {
  }

  // ----- an image rebuilt from the log -----

  lemma RebuiltItem(h: History, n: nat, now: int, image: Image, items: seq<SC.Item>, j: nat)
    requires n <= |h| <= MAX_SEQUENCE && j < |items| && Enumerates(items, image)
    requires Agrees(Lookup(image, items[j].key), KeyAt(h, n, items[j].key), now)
    ensures KeyAt(h, n, items[j].key) == Some(items[j].entry)
  {
  }

  /** Every shard at the same sequence: the image of a compaction. */
  lemma WholeImage(p: Platform, s: State, through: uint64, items: seq<SC.Item>, image: Image, exact: bool)
    requires Bounds(p, s) && through <= s.published && SnapsBelow(s, through)
    requires Enumerates(items, image) && RebuildsShard(p, s.shards, None, image, s.disk.history, through, s.now)
    ensures CaptureOk(p, s, Repeat(s.shards, through), items, exact)
  {
    hide KeyAt, ToImage, SnapsBelow;
    forall i | 0 <= i < |items|
      ensures ItemOk(p, s, Repeat(s.shards, through), items[i])
    {
      RebuiltItem(s.disk.history, through, s.now, image, items, i);
    }
  }

  // ----- an image rebuilt one shard at a time -----

  /** `part` lists keys of one shard only. */
  predicate OfShard(p: Platform, shards: nat, part: seq<SC.Item>, shard: nat)
    requires shards > 0
  {
    forall i :: 0 <= i < |part| ==> ShardOf(p, shards, part[i].key) == shard
  }

  lemma {:induction false} FlattenLookup(p: Platform, shards: nat, parts: seq<seq<SC.Item>>, k: Key)
    requires shards > 0 && forall i :: 0 <= i < |parts| ==> OfShard(p, shards, parts[i], i)
    ensures Lookup(ToImage(Flatten(parts)), k)
         == if ShardOf(p, shards, k) < |parts| then Lookup(ToImage(parts[ShardOf(p, shards, k)]), k) else None
    decreases |parts|
  {
    hide ToImage, OfShard;
    if parts == [] {
      assert ToImage([]) == map[] by { EmptyImage(); }
    } else {
      var n := |parts| - 1;
      FlattenLookup(p, shards, parts[..n], k);
      ToImageAppend(Flatten(parts[..n]), parts[n], k);
      if k in ToImage(parts[n]) {
        var j := ToImageKey(parts[n], k);
        assert OfShard(p, shards, parts[n], n);
        OfShardAt(p, shards, parts[n], n, j);
      }
    }
  }

  lemma EmptyImage()
    ensures ToImage([]) == map[]
  {
  }

  lemma OfShardAt(p: Platform, shards: nat, part: seq<SC.Item>, shard: nat, j: nat)
    requires shards > 0 && OfShard(p, shards, part, shard) && j < |part|
    ensures ShardOf(p, shards, part[j].key) == shard
  {
  }

  lemma {:induction false} FlattenItem(parts: seq<seq<SC.Item>>, i: nat) returns (shard: nat, j: nat)
    requires i < |Flatten(parts)|
    ensures shard < |parts| && j < |parts[shard]| && Flatten(parts)[i] == parts[shard][j]
    decreases |parts|
  {
    var n := |parts| - 1;
    var before := Flatten(parts[..n]);
    if i < |before| {
      shard, j := FlattenItem(parts[..n], i);
    } else {
      shard, j := n, i - |before|;
    }
  }

  lemma PartFacts(p: Platform, s: State, through: uint64, i: nat, part: seq<SC.Item>)
    requires Bounds(p, s) && DiskOk(p, s.disk, s.now) && through <= s.published && SnapsBelow(s, through)
    requires RebuiltPart(p, s.disk.dir, s.shards, through, i, part)
    ensures OfShard(p, s.shards, part, i)
    ensures RecoverImage(p, s.disk.dir, s.shards, Some(i), through).Reconstructed?
    ensures
      var image := RecoverImage(p, s.disk.dir, s.shards, Some(i), through).image;
      && Enumerates(part, image)
      && RebuildsShard(p, s.shards, Some(i), image, s.disk.history, through, s.now)
  {
    hide KeyAt, ToImage, DiskOk, RecoverImage, Highest;
    ReconstructsIffReadable(p, s.disk, s.shards, Some(i), through, s.now);
    var image := RecoverImage(p, s.disk.dir, s.shards, Some(i), through).image;
    forall j | 0 <= j < |part|
      ensures ShardOf(p, s.shards, part[j].key) == i
    {
      assert part[j].key in image;
    }
  }

  lemma PartItem(p: Platform, s: State, through: uint64, parts: seq<seq<SC.Item>>, i: nat, j: nat)
    requires Bounds(p, s) && DiskOk(p, s.disk, s.now) && through <= s.published && SnapsBelow(s, through)
    requires i < |parts| <= s.shards && j < |parts[i]|
    requires RebuiltPart(p, s.disk.dir, s.shards, through, i, parts[i])
    ensures ItemOk(p, s, Repeat(s.shards, through), parts[i][j])
  {
    hide KeyAt, ToImage, DiskOk, RecoverImage, SnapsBelow, OfShard, RebuiltPart;
    PartFacts(p, s, through, i, parts[i]);
    OfShardAt(p, s.shards, parts[i], i, j);
    var image := RecoverImage(p, s.disk.dir, s.shards, Some(i), through).image;
    RebuiltItem(s.disk.history, through, s.now, image, parts[i], j);
  }

  lemma PartKey(p: Platform, s: State, through: uint64, parts: seq<seq<SC.Item>>, exact: bool, k: Key)
    requires Bounds(p, s) && DiskOk(p, s.disk, s.now) && through <= s.published && SnapsBelow(s, through)
    requires |parts| == s.shards && forall i :: 0 <= i < |parts| ==> OfShard(p, s.shards, parts[i], i)
    requires RebuiltPart(p, s.disk.dir, s.shards, through, ShardOf(p, s.shards, k), parts[ShardOf(p, s.shards, k)])
    ensures CapturedOk(p, s, Repeat(s.shards, through), Flatten(parts), exact, k)
  {
    hide KeyAt, ToImage, DiskOk, RecoverImage, SnapsBelow, OfShard, RebuiltPart;
    var i := ShardOf(p, s.shards, k);
    PartFacts(p, s, through, i, parts[i]);
    FlattenLookup(p, s.shards, parts, k);
  }

  predicate EachKeyOnce(items: seq<SC.Item>) {
    forall i, j :: 0 <= i < j < |items| ==> items[i].key != items[j].key
  }

  /** Parts of different shards share no key. */
  lemma {:induction false} FlattenOnce(p: Platform, shards: nat, parts: seq<seq<SC.Item>>)
    requires shards > 0 && forall i :: 0 <= i < |parts| ==> OfShard(p, shards, parts[i], i) && EachKeyOnce(parts[i])
    ensures EachKeyOnce(Flatten(parts))
    ensures forall i :: 0 <= i < |Flatten(parts)| ==> ShardOf(p, shards, Flatten(parts)[i].key) < |parts|
    decreases |parts|
  {
    if parts != [] {
      var n := |parts| - 1;
      FlattenOnce(p, shards, parts[..n]);
      var before := Flatten(parts[..n]);
      assert OfShard(p, shards, parts[n], n) && EachKeyOnce(parts[n]);
    }
  }

  lemma PartOfShard(p: Platform, dir: Directory, shards: nat, through: uint64, i: nat, part: seq<SC.Item>)
    requires shards > 0 && RebuiltPart(p, dir, shards, through, i, part)
    ensures OfShard(p, shards, part, i) && EachKeyOnce(part)
  {
    hide RecoverImage, ToImage;
    forall j | 0 <= j < |part|
      ensures ShardOf(p, shards, part[j].key) == i
    {
      OneShardOfWhole(p, dir, shards, i, through, part[j].key);
    }
  }

  /** The final image is the whole image. Whatever a directory holds, if every shard
      of it can be rebuilt on its own then so can the whole, and the parts written one
      after the other load to exactly the map of the one whole reconstruction, each
      key written once. */
  lemma JoinedPartsAreTheWhole(p: Platform, dir: Directory, shards: nat, through: uint64, parts: seq<seq<SC.Item>>)
    requires shards > 0 && RebuiltParts(p, dir, shards, through, parts)
    ensures RecoverImage(p, dir, shards, None, through).Reconstructed?
    ensures ToImage(Flatten(parts)) == RecoverImage(p, dir, shards, None, through).image
    ensures EachKeyOnce(Flatten(parts))
  {
    hide RecoverImage, ToImage, OfShard, EachKeyOnce, Flatten;
    forall i | 0 <= i < |parts|
      ensures OfShard(p, shards, parts[i], i) && EachKeyOnce(parts[i])
    {
      PartOfShard(p, dir, shards, through, i, parts[i]);
    }
    FlattenOnce(p, shards, parts);
    assert RebuiltPart(p, dir, shards, through, 0, parts[0]);
    OneShardOfWhole(p, dir, shards, 0, through, []);
    var whole := RecoverImage(p, dir, shards, None, through).image;
    forall k
      ensures Lookup(ToImage(Flatten(parts)), k) == Lookup(whole, k)
    {
      var i := ShardOf(p, shards, k);
      assert RebuiltPart(p, dir, shards, through, i, parts[i]);
      FlattenLookup(p, shards, parts, k);
      OneShardOfWhole(p, dir, shards, i, through, k);
    }
    SameLookups(ToImage(Flatten(parts)), whole);
  }

  /** On the directory of a running store the image joined from one reconstruction per
      shard is complete, with the same sequence in every shard. */
  lemma ShardwiseImage(p: Platform, s: State, through: uint64, parts: seq<seq<SC.Item>>, exact: bool)
    requires Bounds(p, s) && DiskOk(p, s.disk, s.now) && through <= s.published && SnapsBelow(s, through)
    requires RebuiltParts(p, s.disk.dir, s.shards, through, parts)
    ensures CaptureOk(p, s, Repeat(s.shards, through), Flatten(parts), exact)
  {
    hide KeyAt, ToImage, DiskOk, RecoverImage, SnapsBelow, OfShard, RebuiltPart, ItemOk, CapturedOk;
    var items := Flatten(parts);
    forall i | 0 <= i < |items|
      ensures ItemOk(p, s, Repeat(s.shards, through), items[i])
    {
      var shard, j := FlattenItem(parts, i);
      PartItem(p, s, through, parts, shard, j);
    }
    forall i | 0 <= i < |parts|
      ensures OfShard(p, s.shards, parts[i], i)
    {
      PartFacts(p, s, through, i, parts[i]);
    }
    var sequences := Repeat(s.shards, through);
    forall k
      ensures CapturedOk(p, s, sequences, items, exact, k)
    {
      PartKey(p, s, through, parts, exact, k);
    }
  }

  // ----- a finished image -----

  lemma {:induction false} KeyAtEncodable(h: History, n: nat, k: Key)
    requires n <= |h| <= MAX_SEQUENCE && AllEncodable(h)
    ensures KeyAt(h, n, k).Some? ==> SC.EncodableItem(SC.Item(k, KeyAt(h, n, k).value))
    decreases n
  {
    if n > 0 { KeyAtEncodable(h, n - 1, k); }
  }

  lemma ItemFits(p: Platform, s: State, sequences: seq<uint64>, item: SC.Item)
    requires s.shards > 0 && s.published <= |s.disk.history| <= MAX_SEQUENCE && AllEncodable(s.disk.history)
    requires |sequences| == s.shards && ItemOk(p, s, sequences, item)
    ensures SC.EncodableItem(item) && SC.Covered(p, sequences, item)
  {
    hide KeyAt, AllEncodable, SC.EncodableItem;
    var at := sequences[ShardOf(p, s.shards, item.key)];
    KeyAtEncodable(s.disk.history, at, item.key);
    KeyAtSequence(s.disk.history, at, item.key);
  }

  /** A finished image can always be written: the loader will take it back. */
  lemma FinishedIsWellFormed(p: Platform, s: State, snapshot: SC.Snapshot, exact: bool)
    requires Bounds(p, s) && AllEncodable(s.disk.history) && |snapshot.sequences| == s.shards
    requires CaptureOk(p, s, snapshot.sequences, snapshot.items, exact)
    ensures SC.WellFormed(p, snapshot)
  {
    hide KeyAt, ToImage, AllEncodable, ItemOk, CapturedOk, SC.EncodableItem, SC.Covered, SnapsBelow;
    forall i | 0 <= i < |snapshot.items|
      ensures SC.EncodableItem(snapshot.items[i]) && SC.Covered(p, snapshot.sequences, snapshot.items[i])
    {
      assert ItemOk(p, s, snapshot.sequences, snapshot.items[i]);
      ItemFits(p, s, snapshot.sequences, snapshot.items[i]);
    }
  }

  lemma {:induction false} LowestAt(sequences: seq<uint64>) returns (i: nat)
    requires |sequences| > 0
    ensures i < |sequences| && sequences[i] == Lowest(sequences)
  {
    i :| 0 <= i < |sequences| && sequences[i] == Lowest(sequences);
  }

  lemma {:induction false} HighestAt(sequences: seq<uint64>) returns (i: nat)
    requires |sequences| > 0
    ensures i < |sequences| && sequences[i] == Highest(sequences)
  {
    i :| 0 <= i < |sequences| && sequences[i] == Highest(sequences);
  }

  /** A finished image lies at or above every installed one and below the log's end;
      if no eviction overtook it, it is faithful to the history. */
  lemma FinishedIsNewest(p: Platform, s: State, snapshot: SC.Snapshot, exact: bool)
    requires Bounds(p, s) && |snapshot.sequences| == s.shards
    requires CaptureOk(p, s, snapshot.sequences, snapshot.items, exact)
    ensures Highest(snapshot.sequences) <= s.published
    ensures SnapsBelow(s, Lowest(snapshot.sequences))
    ensures exact ==> Faithful(p, snapshot, s.disk.history, s.now)
  {
    hide KeyAt, ToImage, ItemOk;
    var i := LowestAt(snapshot.sequences);
    assert SnapsBelow(s, snapshot.sequences[i]);
    var j := HighestAt(snapshot.sequences);
    assert SequenceOk(s, snapshot.sequences, j);
    if exact {
      forall k
        ensures FaithfulOn(p, snapshot, s.disk.history, s.now, k)
      {
        assert CapturedOk(p, s, snapshot.sequences, snapshot.items, exact, k);
      }
    }
  }
}
