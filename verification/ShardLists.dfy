/** The shards of a store as lists, and the image they show together. */
module ShardLists {
  import opened Base
  import opened Replay
  import opened Recovery
  import opened Recency
  import SC = SnapshotCodec

  /** A lookup in a key's shard finds what the image holds. */
  ghost predicate Shows(p: Platform, lists: seq<seq<Item>>, image: Image) {
    lists != [] && forall k :: ShowsKey(p, lists, image, k)
  }

  predicate ShowsKey(p: Platform, lists: seq<seq<Item>>, image: Image, k: Key)
    requires lists != []
  {
    Lookup(ToImage(lists[ShardOf(p, |lists|, k)]), k) == Lookup(image, k)
  }

  /** Every shard holds keys of its own, each once. */
  ghost predicate Housed(p: Platform, lists: seq<seq<Item>>) {
    lists != [] && forall i :: 0 <= i < |lists| ==> HousedAt(p, |lists|, lists[i], i)
  }

  predicate HousedAt(p: Platform, shards: nat, list: seq<Item>, i: nat)
    requires shards > 0
  {
    Distinct(list) && forall j :: 0 <= j < |list| ==> ShardOf(p, shards, list[j].key) == i
  }

  /** One shard changes its lookups the way the image changes. */
  lemma OneShardShows(p: Platform, lists: seq<seq<Item>>, i: nat, list: seq<Item>, image: Image, image': Image)
    requires Shows(p, lists, image) && i < |lists|
    requires forall k :: if ShardOf(p, |lists|, k) == i then Lookup(ToImage(list), k) == Lookup(image', k)
                         else Lookup(image', k) == Lookup(image, k)
    ensures Shows(p, lists[i := list], image')
  {
    hide ToImage;
    var after := lists[i := list];
    forall k
      ensures ShowsKey(p, after, image', k)
    {
      assert ShowsKey(p, lists, image, k);
    }
  }

  // ----- records of the log -----

  function ItemOf(op: Op, sequence: uint64): Item
    requires op.Set?
  {
    SC.Item(op.key, Entry(op.value, op.deadline, sequence))
  }

  /** What a recovered record makes of its shard. */
  function AfterRecord(list: seq<Item>, op: Op, sequence: uint64): seq<Item> {
    if op.Set? then Put(list, ItemOf(op, sequence)) else Without(list, op.key)
  }

  lemma AfterRecordLookup(list: seq<Item>, op: Op, sequence: uint64, image: Image, k: Key)
    requires Distinct(list) && Lookup(ToImage(list), k) == Lookup(image, k)
    ensures Lookup(ToImage(AfterRecord(list, op, sequence)), k) == Lookup(ApplyOp(image, op, sequence), k)
  {
    hide ToImage, Put, Without, Distinct;
    if op.Set? { PutLookup(list, ItemOf(op, sequence), k); } else { WithoutLookup(list, op.key, k); }
  }

  /** Doing it in the key's shard is applying the record to the image. */
  lemma RecordShows(p: Platform, lists: seq<seq<Item>>, image: Image, op: Op, sequence: uint64)
    requires Shows(p, lists, image) && Distinct(lists[ShardOf(p, |lists|, op.key)])
    ensures
      var i := ShardOf(p, |lists|, op.key);
      Shows(p, lists[i := AfterRecord(lists[i], op, sequence)], ApplyOp(image, op, sequence))
  {
    hide ToImage, AfterRecord, Distinct;
    var i := ShardOf(p, |lists|, op.key);
    var list, image' := AfterRecord(lists[i], op, sequence), ApplyOp(image, op, sequence);
    forall k
      ensures if ShardOf(p, |lists|, k) == i then Lookup(ToImage(list), k) == Lookup(image', k) else Lookup(image', k) == Lookup(image, k)
    {
      assert ShowsKey(p, lists, image, k);
      if ShardOf(p, |lists|, k) == i { AfterRecordLookup(lists[i], op, sequence, image, k); }
    }
    OneShardShows(p, lists, i, list, image, image');
  }

  // ----- records as the writer applies them -----

  /** What a written record makes of its shard: `applySet` and `applyDelete`. */
  function AfterWrite(list: seq<Item>, op: Op, sequence: uint64, now: int, slice: nat): seq<Item> {
    if op.Set? then ApplySet(list, ItemOf(op, sequence), now, slice) else Without(list, op.key)
  }

  /** How many live entries that evicts. */
  function EvictedByWrite(list: seq<Item>, op: Op, sequence: uint64, now: int, slice: nat): nat {
    if op.Set? then Evicted(list, ItemOf(op, sequence), now, slice) else 0
  }

  /** The shards after the writer has applied `ops`, the first of which has sequence
      `base + 1`; record `q` is applied at time `clock(q)`. */
  function AfterWrites(p: Platform, lists: seq<seq<Item>>, ops: seq<Op>, base: nat, clock: nat -> int, slice: nat): (r: seq<seq<Item>>)
    requires lists != [] && base + |ops| <= MAX_SEQUENCE
    ensures |r| == |lists|
  {
    if ops == [] then lists
    else
      var n := |ops| - 1;
      var before := AfterWrites(p, lists, ops[..n], base, clock, slice);
      var i := ShardOf(p, |lists|, ops[n].key);
      before[i := AfterWrite(before[i], ops[n], base + |ops|, clock(base + |ops|), slice)]
  }

  function EvictedByAll(p: Platform, lists: seq<seq<Item>>, ops: seq<Op>, base: nat, clock: nat -> int, slice: nat): nat
    requires lists != [] && base + |ops| <= MAX_SEQUENCE
  {
    if ops == [] then 0
    else
      var n := |ops| - 1;
      var before := AfterWrites(p, lists, ops[..n], base, clock, slice);
      var i := ShardOf(p, |lists|, ops[n].key);
      EvictedByAll(p, lists, ops[..n], base, clock, slice)
        + EvictedByWrite(before[i], ops[n], base + |ops|, clock(base + |ops|), slice)
  }

  lemma NoWrites(p: Platform, lists: seq<seq<Item>>, base: nat, clock: nat -> int, slice: nat)
    requires lists != [] && base <= MAX_SEQUENCE
    ensures AfterWrites(p, lists, [], base, clock, slice) == lists && EvictedByAll(p, lists, [], base, clock, slice) == 0
  {
  }

  lemma NextWrite(p: Platform, lists: seq<seq<Item>>, ops: seq<Op>, n: nat, base: nat, clock: nat -> int, slice: nat)
    requires lists != [] && base + |ops| <= MAX_SEQUENCE && n < |ops|
    ensures
      var before := AfterWrites(p, lists, ops[..n], base, clock, slice);
      var i := ShardOf(p, |lists|, ops[n].key);
      var q := base + n + 1;
      && AfterWrites(p, lists, ops[..n + 1], base, clock, slice) == before[i := AfterWrite(before[i], ops[n], q, clock(q), slice)]
      && EvictedByAll(p, lists, ops[..n + 1], base, clock, slice)
         == EvictedByAll(p, lists, ops[..n], base, clock, slice) + EvictedByWrite(before[i], ops[n], q, clock(q), slice)
  {
    hide AfterWrite, EvictedByWrite;
    assert ops[..n + 1][..n] == ops[..n];
  }

  lemma {:induction false} WritesAppend(p: Platform, lists: seq<seq<Item>>, a: seq<Op>, b: seq<Op>, base: nat, clock: nat -> int, slice: nat)
    requires lists != [] && base + |a| + |b| <= MAX_SEQUENCE
    ensures
      var mid := AfterWrites(p, lists, a, base, clock, slice);
      && AfterWrites(p, lists, a + b, base, clock, slice) == AfterWrites(p, mid, b, base + |a|, clock, slice)
      && EvictedByAll(p, lists, a + b, base, clock, slice)
         == EvictedByAll(p, lists, a, base, clock, slice) + EvictedByAll(p, mid, b, base + |a|, clock, slice)
    decreases |b|
  {
    hide AfterWrite, EvictedByWrite, AfterWrites, EvictedByAll;
    var mid := AfterWrites(p, lists, a, base, clock, slice);
    if b == [] {
      assert a + b == a;
      NoWrites(p, mid, base + |a|, clock, slice);
    } else {
      var n := |b| - 1;
      assert (a + b)[..|a| + n] == a + b[..n] && (a + b)[..|a| + |b|] == a + b && b[..n + 1] == b;
      WritesAppend(p, lists, a, b[..n], base, clock, slice);
      NextWrite(p, lists, a + b, |a| + n, base, clock, slice);
      NextWrite(p, mid, b, n, base + |a|, clock, slice);
    }
  }

  // ----- keys stay at home -----

  lemma HousedPut(p: Platform, shards: nat, list: seq<Item>, item: Item, i: nat)
    requires shards > 0 && HousedAt(p, shards, list, i) && ShardOf(p, shards, item.key) == i
    ensures HousedAt(p, shards, Without(list, item.key), i) && HousedAt(p, shards, Put(list, item), i)
  {
    hide Without;
    DistinctOps(list, item);
    var j := Position(list, item.key);
    if j < |list| { WithoutIsDrop(list, j); } else { WithoutAbsent(list, item.key); }
  }

  lemma HousedPrefix(p: Platform, shards: nat, list: seq<Item>, n: nat, i: nat)
    requires shards > 0 && HousedAt(p, shards, list, i) && n <= |list|
    ensures HousedAt(p, shards, list[..n], i)
  {
  }

  lemma HousedWrite(p: Platform, lists: seq<seq<Item>>, op: Op, sequence: uint64, now: int, slice: nat)
    requires Housed(p, lists)
    ensures
      var i := ShardOf(p, |lists|, op.key);
      Housed(p, lists[i := AfterWrite(lists[i], op, sequence, now, slice)])
  {
    hide HousedAt, Put, Without, Evict;
    var i := ShardOf(p, |lists|, op.key);
    assert HousedAt(p, |lists|, lists[i], i);
    var item := if op.Set? then ItemOf(op, sequence) else SC.Item(op.key, Entry([], 0, 0));
    HousedPut(p, |lists|, lists[i], item, i);
    HousedPrefix(p, |lists|, Put(lists[i], item), Kept(Put(lists[i], item), slice), i);
  }

  // ----- removals, one entry at a time -----

  /** Taking the last entry off a list is taking its key out of the image. */
  lemma LastRemovedShows(p: Platform, lists: seq<seq<Item>>, i: nat, list: seq<Item>, n: nat, image: Image)
    requires i < |lists| && n < |list| && HousedAt(p, |lists|, list, i) && Shows(p, lists[i := list[..n + 1]], image)
    ensures list[n].key in image && image[list[n].key] == list[n].entry
    ensures Shows(p, lists[i := list[..n]], image - {list[n].key})
  {
    hide ToImage;
    var longer, key := list[..n + 1], list[n].key;
    var now := lists[i := longer];
    assert longer == list[..n] + [list[n]];
    assert ShowsKey(p, now, image, key);
    ImageSnoc(list[..n], list[n], key);
    forall k
      ensures if ShardOf(p, |lists|, k) == i then Lookup(ToImage(list[..n]), k) == Lookup(image - {key}, k)
              else Lookup(image - {key}, k) == Lookup(image, k)
    {
      assert ShowsKey(p, now, image, k);
      ImageSnoc(list[..n], list[n], k);
      if k == key { ImageAbsent(list[..n], k); }
    }
    OneShardShows(p, now, i, list[..n], image, image - {key});
    assert now[i := list[..n]] == lists[i := list[..n]];
  }

  /** Taking out what was just put in front. */
  lemma PutRemovedShows(p: Platform, lists: seq<seq<Item>>, i: nat, item: Item, image: Image)
    requires i < |lists| && HousedAt(p, |lists|, lists[i], i) && ShardOf(p, |lists|, item.key) == i
    requires Shows(p, lists[i := Put(lists[i], item)], image)
    ensures item.key in image && image[item.key] == item.entry
    ensures Shows(p, lists[i := Without(lists[i], item.key)], image - {item.key})
  {
    hide ToImage, Put, Without;
    var now := lists[i := Put(lists[i], item)];
    var rest := Without(lists[i], item.key);
    assert ShowsKey(p, now, image, item.key);
    PutLookup(lists[i], item, item.key);
    forall k
      ensures if ShardOf(p, |lists|, k) == i then Lookup(ToImage(rest), k) == Lookup(image - {item.key}, k)
              else Lookup(image - {item.key}, k) == Lookup(image, k)
    {
      assert ShowsKey(p, now, image, k);
      PutLookup(lists[i], item, k);
      WithoutLookup(lists[i], item.key, k);
    }
    OneShardShows(p, now, i, rest, image, image - {item.key});
    assert now[i := rest] == lists[i := rest];
  }
}
