/** The shards of a store on one heap, moving the totals they share. */
module ShardedStore {
  import opened Base
  import opened Replay
  import opened Recovery
  import opened Recency
  import opened Accounting
  import opened ShardLists
  import S = Shard
  import SC = SnapshotCodec

  function Empty(count: nat): (r: seq<seq<Item>>)
    ensures |r| == count && forall i :: 0 <= i < count ==> r[i] == []
  {
    if count == 0 then [] else Empty(count - 1) + [[]]
  }

  lemma {:induction false} EmptySums(count: nat)
    ensures Sum(Lengths(Empty(count))) == 0 && Sum(Charges(Empty(count))) == 0
  {
    if count > 0 {
      EmptySums(count - 1);
      assert Lengths(Empty(count))[..count - 1] == Lengths(Empty(count - 1));
      assert Charges(Empty(count))[..count - 1] == Charges(Empty(count - 1));
    }
  }

  /** One call on a store. */
  datatype Call =
    | Setting(key: Key, entry: Entry, now: int)
    | Deleting(key: Key)
    | Getting(key: Key, now: int)
    | Sweeping(shard: nat, clock: nat -> int, allowed: nat -> nat, late: nat -> bool)

  function Members(nodes: seq<S.Node>): set<S.Node> { set x | x in nodes }

  function Parts(shards: seq<S.Shard>): set<S.Shard> { set x | x in shards }

  class Store {
    const p: Platform
    const capacity: nat
    const shards: seq<S.Shard>
    const counters: S.Counters
    ghost var views: seq<seq<Item>>   // what each shard holds, most recent first

    /** One set of totals, one slice each, no shard twice. */
    predicate Wired() {
      && |shards| > 0
      && (forall i :: 0 <= i < |shards| ==> shards[i].store == counters && shards[i].capacity == Slice(capacity, |shards|))
      && (forall i, j :: 0 <= i < j < |shards| ==> shards[i] != shards[j])
    }

    /** Shard `i` is well formed, holds `view`, and only keys that belong to it. */
    ghost predicate ShardAt(i: nat, view: seq<Item>)
      requires i < |shards|
      reads shards[i], Members(shards[i].nodes)
    {
      && shards[i].Valid() && shards[i].Contents() == view
      && forall k :: k in shards[i].entries ==> ShardOf(p, |shards|, k) == i
    }

    /** The entries of the first `n` shards. */
    ghost function Nodes(n: nat): (r: set<S.Node>)
      requires n <= |shards|
      reads Parts(shards)`nodes
      ensures forall i, x :: 0 <= i < n && x in Members(shards[i].nodes) ==> x in r
    {
      if n == 0 then {} else Nodes(n - 1) + Members(shards[n - 1].nodes)
    }

    lemma {:induction false} NodeAt(n: nat, x: S.Node) returns (i: nat)
      requires n <= |shards| && x in Nodes(n)
      ensures i < n && x in shards[i].nodes
    {
      if x in Members(shards[n - 1].nodes) { i := n - 1; } else { i := NodeAt(n - 1, x); }
    }

    /** A new store holds no entries. */
    lemma NoNodes()
      requires forall i :: 0 <= i < |shards| ==> shards[i].nodes == []
      ensures Nodes(|shards|) == {}
    {
      NoNodesIn(|shards|);
    }

    lemma {:induction false} NoNodesIn(n: nat)
      requires n <= |shards| && forall i :: 0 <= i < n ==> shards[i].nodes == []
      ensures Nodes(n) == {}
    {
      if n > 0 { NoNodesIn(n - 1); }
    }

    ghost predicate Valid()
      reads this, Parts(shards), counters, Nodes(|shards|)
    {
      && Wired() && |views| == |shards|
      && (forall i :: 0 <= i < |shards| ==> ShardAt(i, views[i]))
      && counters.entries == Sum(Lengths(views)) && counters.bytes == Sum(Charges(views))
    }

    /** Every shard is within its slice. */
    ghost predicate Fits()
      reads this`views
    {
      |shards| > 0 && forall i :: 0 <= i < |views| ==> Total(views[i]) <= Slice(capacity, |shards|)
    }

    /** The value the heap stands for. */
    ghost function Value(): Accounting.Store
      reads this`views, counters
    {
      Accounting.Store(views, counters.entries, counters.bytes)
    }

    /** The heap has made one step of the value model. */
    ghost predicate Stepped(before: Accounting.Store, a: Action)
      reads this`views, counters
    {
      Follows(p, before, a, Value(), capacity)
    }

    /** One shard has been swept, and nothing else has changed. */
    ghost predicate SweptTo(before: Accounting.Store, after: Accounting.Store, shard: nat, passes: seq<Pass>,
                            clock: nat -> int, allowed: nat -> nat, late: nat -> bool)
    {
      && shard < |before.shards| && IsSweep(before.shards[shard], passes, 0, clock, allowed, late)
      && after == Replaced(before, shard, Swept(before.shards[shard], passes))
    }

    /** What a call does to the value of the store, and what it answers. */
    ghost predicate Performed(call: Call, before: Accounting.Store, after: Accounting.Store, answer: Option<Bytes>) {
      match call
      case Setting(key, entry, now) => Follows(p, before, SetEntry(SC.Item(key, entry), now), after, capacity) && answer == None
      case Deleting(key) => Follows(p, before, DeleteKey(key), after, capacity) && answer == None
      case Getting(key, now) => Follows(p, before, Action.Get(key, now), after, capacity) && answer == Answer(before.shards, key, now)
      case Sweeping(shard, clock, allowed, late) =>
        answer == None && exists passes :: SweptTo(before, after, shard, passes, clock, allowed, late)
    }

    /** What a lookup in the key's shard answers. */
    ghost function Answer(lists: seq<seq<Item>>, key: Key, now: int): Option<Bytes> {
      if lists == [] then None else GetValue(lists[ShardOf(p, |lists|, key)], key, now)
    }

    /** How many live entries a `Set` evicts. */
    ghost function Lost(lists: seq<seq<Item>>, key: Key, entry: Entry, now: int): nat {
      if lists == [] then 0
      else Evicted(lists[ShardOf(p, |lists|, key)], SC.Item(key, entry), now, Slice(capacity, |lists|))
    }

    function Home(key: Key): (i: nat)
      requires |shards| > 0
      ensures i < |shards|
    {
      ShardOf(p, |shards|, key)
    }

    static ghost predicate IsNew(shard: S.Shard, slice: nat, totals: S.Counters)
      reads shard, Members(shard.nodes)
    {
      && shard.store == totals && shard.capacity == slice && shard.nodes == [] && shard.entries == map[]
      && shard.Valid() && shard.Contents() == []
    }

    static method MakeShards(count: nat, slice: nat, totals: S.Counters) returns (made: seq<S.Shard>)
      ensures |made| == count && forall j :: 0 <= j < count ==> IsNew(made[j], slice, totals) && fresh(made[j])
      ensures forall j, k :: 0 <= j < k < count ==> made[j] != made[k]
    {
      hide S.Shard.Valid, S.Shard.Contents;
      made := [];
      for i := 0 to count
        invariant |made| == i && forall j :: 0 <= j < i ==> IsNew(made[j], slice, totals) && fresh(made[j])
        invariant forall j, k :: 0 <= j < k < i ==> made[j] != made[k]
      {
        var shard := new S.Shard(slice, totals);
        made := made + [shard];
      }
    }

    /** `newStoreState`: the capacity is divided with truncation. */
    constructor (p: Platform, capacity: nat, count: nat)
      requires count > 0
      ensures Valid() && Fits() && |shards| == count && views == Empty(count)
      ensures this.p == p && this.capacity == capacity && counters.generation == 0
      ensures fresh(counters) && Nodes(|shards|) == {} && forall i :: 0 <= i < |shards| ==> fresh(shards[i]) && shards[i].nodes == []
    {
      var totals := new S.Counters();
      var made := MakeShards(count, Slice(capacity, count), totals);
      this.p, this.capacity, shards, counters, views := p, capacity, made, totals, Empty(count);
      new;
      hide IsNew, Fits, Valid, Empty, Slice, Nodes;
      assert forall i :: 0 <= i < count ==> IsNew(shards[i], Slice(capacity, count), counters);
      NewIsValid();
    }

    lemma NewIsValid()
      requires |shards| > 0 && views == Empty(|shards|) && counters.entries == 0 && counters.bytes == 0
      requires forall i :: 0 <= i < |shards| ==> IsNew(shards[i], Slice(capacity, |shards|), counters)
      requires forall i, j :: 0 <= i < j < |shards| ==> shards[i] != shards[j]
      ensures Valid() && Fits() && Nodes(|shards|) == {} && forall i :: 0 <= i < |shards| ==> shards[i].nodes == []
    {
      hide S.Shard.Valid, S.Shard.Contents, Sum, Lengths, Charges, Empty, Slice, Nodes;
      EmptySums(|shards|);
      NoNodes();
    }

    // ----- one shard changes, the others do not -----

    lemma Belongs(i: nat, view: seq<Item>, x: S.Node)
      requires i < |shards| && ShardAt(i, view) && x in shards[i].nodes
      ensures ShardOf(p, |shards|, x.key) == i
    {
      hide Total, S.Shard.Linked;
    }

    /** Entries of different shards are different objects, because their keys belong to
        different shards. */
    lemma Apart(i: nat, j: nat)
      requires Valid() && i < |shards| && j < |shards| && i != j
      ensures shards[i] != shards[j] && forall x :: x in Members(shards[j].nodes) ==> x !in shards[i].nodes
    {
      hide ShardAt, Nodes, Sum, Lengths, Charges;
      assert ShardAt(i, views[i]) && ShardAt(j, views[j]);
      forall x | x in Members(shards[j].nodes)
        ensures x !in shards[i].nodes
      {
        Belongs(j, views[j], x);
        if x in shards[i].nodes {
          Belongs(i, views[i], x);
          assert false;
        }
      }
    }

    /** What holds of a shard before it is touched. */
    lemma Opened(i: nat)
      requires Valid() && i < |shards|
      ensures shards[i].Valid() && shards[i].Contents() == views[i] && Distinct(views[i])
      ensures shards[i].bytes == Total(views[i]) && |shards[i].nodes| == |views[i]|
      ensures shards[i].store == counters && shards[i].capacity == Slice(capacity, |shards|)
      ensures forall k :: k in shards[i].entries ==> ShardOf(p, |shards|, k) == i
      ensures forall j :: 0 <= j < |shards| && j != i ==>
        shards[i] != shards[j] && forall x :: x in Members(shards[j].nodes) ==> x !in shards[i].nodes
    {
      hide Total, Nodes, Sum, Lengths, Charges, S.Shard.Valid, S.Shard.Contents, Members;
      assert ShardAt(i, views[i]);
      shards[i].Counted();
      forall j | 0 <= j < |shards| && j != i
        ensures shards[i] != shards[j] && forall x :: x in Members(shards[j].nodes) ==> x !in shards[i].nodes
      {
        Apart(i, j);
      }
    }

    /** A change of one shard that moves the totals with it keeps the store valid. */
    lemma Settled(i: nat, before: seq<seq<Item>>, entries: int, bytes: int)
      requires Wired() && i < |shards| && |before| == |shards|
      requires forall j :: 0 <= j < |shards| && j != i ==> ShardAt(j, before[j])
      requires shards[i].Valid() && forall k :: k in shards[i].entries ==> ShardOf(p, |shards|, k) == i
      requires views == before[i := shards[i].Contents()]
      requires entries == Sum(Lengths(before)) && bytes == Sum(Charges(before))
      requires counters.entries - |shards[i].nodes| == entries - |before[i]|
      requires counters.bytes - shards[i].bytes == bytes - Total(before[i])
      ensures Valid()
      ensures counters.entries == entries + |views[i]| - |before[i]|
      ensures counters.bytes == bytes + Total(views[i]) - Total(before[i]) && shards[i].bytes == Total(views[i])
    {
      hide Total, Sum, Lengths, Charges, Slice, S.Shard.Valid, S.Shard.Contents, Nodes;
      shards[i].Counted();
      Difference(before, i, views[i]);
    }

    /** Within its slice before an operation, within its slice after it. */
    lemma StillFits(before: seq<seq<Item>>, i: nat, a: Action)
      requires i < |before| == |views| == |shards| && views == before[i := After(before[i], a, Slice(capacity, |shards|))]
      requires Distinct(before[i]) && forall j :: 0 <= j < |before| ==> Total(before[j]) <= Slice(capacity, |shards|)
      ensures Fits()
    {
      hide Total, Slice, After;
      AfterOk(before[i], a, Slice(capacity, |shards|));
    }

    /** `Bytes` never exceeds the capacity, and both totals are the sums over the shards. */
    lemma TotalsOfShards()
      requires Valid() && Fits()
      ensures counters.entries == Sum(Lengths(views)) && counters.bytes == Sum(Charges(views)) <= capacity
    {
      hide Total, Sum, ShardAt, Nodes;
      SumBound(Charges(views), Slice(capacity, |shards|));
      SlicesFit(capacity, |shards|);
    }

    // ----- operations -----

    /** `Set` as the writer applies it: `shardFor`, then `applySet`. */
    method Set(key: Key, entry: Entry, now: int)
      requires Valid()
      modifies this`views, shards[Home(key)], shards[Home(key)].nodes, counters
      ensures Valid() && (old(Fits()) ==> Fits())
      ensures Stepped(old(Value()), SetEntry(SC.Item(key, entry), now))
      ensures counters.generation == old(counters.generation) + Lost(old(views), key, entry, now)
      ensures forall x :: x in shards[Home(key)].nodes ==> x in old(shards[Home(key)].nodes) || fresh(x)
    {
      hide Total, Sum, Lengths, Charges, Slice, S.Shard.Valid, S.Shard.Contents, Nodes, ShardAt, ShardOk, Recency.ApplySet, Evicted;
      var i := Home(key);
      Opened(i);
      ghost var before, entries, bytes := views, counters.entries, counters.bytes;
      shards[i].ApplySet(key, entry, now);
      views := views[i := shards[i].Contents()];
      Settled(i, before, entries, bytes);
      if old(Fits()) { StillFits(before, i, SetEntry(SC.Item(key, entry), now)); }
    }

    /** `Delete` as the writer applies it. */
    method Delete(key: Key)
      requires Valid()
      modifies this`views, shards[Home(key)], shards[Home(key)].nodes, counters
      ensures Valid() && (old(Fits()) ==> Fits())
      ensures Stepped(old(Value()), DeleteKey(key)) && views == old(views)[Home(key) := Without(old(views)[Home(key)], key)]
      ensures counters.generation == old(counters.generation)
      ensures forall x :: x in shards[Home(key)].nodes ==> x in old(shards[Home(key)].nodes)
    {
      hide Total, Sum, Lengths, Charges, Slice, S.Shard.Valid, S.Shard.Contents, Nodes, ShardAt, ShardOk, Without;
      var i := Home(key);
      Opened(i);
      ghost var before, entries, bytes := views, counters.entries, counters.bytes;
      shards[i].ApplyDelete(key);
      views := views[i := shards[i].Contents()];
      Settled(i, before, entries, bytes);
      if old(Fits()) { StillFits(before, i, DeleteKey(key)); }
    }

    /** `Get`: the value of a live entry of the key's shard. */
    method Get(key: Key, now: int) returns (value: Option<Bytes>)
      requires Valid()
      modifies this`views, shards[Home(key)], shards[Home(key)].nodes, counters
      ensures Valid() && (old(Fits()) ==> Fits())
      ensures Stepped(old(Value()), Action.Get(key, now)) && value == Answer(old(Value()).shards, key, now)
      ensures counters.generation == old(counters.generation)
      ensures forall x :: x in shards[Home(key)].nodes ==> x in old(shards[Home(key)].nodes)
    {
      hide Total, Sum, Lengths, Charges, Slice, S.Shard.Valid, S.Shard.Contents, Nodes, ShardAt, ShardOk, AfterGet, GetValue;
      var i := Home(key);
      Opened(i);
      ghost var before, entries, bytes := views, counters.entries, counters.bytes;
      value := shards[i].Get(key, now);
      views := views[i := shards[i].Contents()];
      Settled(i, before, entries, bytes);
      if old(Fits()) { StillFits(before, i, Action.Get(key, now)); }
    }

    lemma SweepFits(before: Accounting.Store, i: nat, passes: seq<Pass>)
      requires i < |before.shards| == |shards| && Distinct(before.shards[i])
      requires forall j :: 0 <= j < |before.shards| ==> Total(before.shards[j]) <= Slice(capacity, |shards|)
      requires views == before.shards[i := Swept(before.shards[i], passes)]
      ensures Fits()
    {
      hide Total, Slice, Swept;
      SweptOk(before.shards[i], passes);
    }

    /** `sweepShard` on one shard: a run of the value model that no reader can tell. */
    method Sweep(i: nat, clock: nat -> int, allowed: nat -> nat, late: nat -> bool, ghost later: int) returns (ghost passes: seq<Pass>)
      requires Valid() && i < |shards|
      modifies this`views, shards[i], shards[i].nodes, counters
      ensures Valid() && (old(Fits()) ==> Fits())
      ensures Runs(p, old(Value()), SweepActions(i, passes), Value(), capacity)
      ensures |views| == |old(views)| && views == old(views)[i := views[i]]
      ensures SweptTo(old(Value()), Value(), i, passes, clock, allowed, late)
      ensures |old(views)[i]| <= 20 && |old(views)[i]| <= allowed(0) ==> NoneExpired(views[i], clock(0))
      ensures (forall n :: clock(n) <= later) ==> Live(ToImage(views[i]), later) == Live(ToImage(old(views)[i]), later)
      ensures counters.generation == old(counters.generation)
      ensures forall x :: x in shards[i].nodes ==> x in old(shards[i].nodes)
    {
      hide Total, Sum, Lengths, Charges, Slice, S.Shard.Valid, S.Shard.Contents, Nodes, ShardAt, ShardOk, Live, ToImage, Swept, SweepActions, Runs, IsSweep, NoneExpired;
      Opened(i);
      ghost var start, before, entries, bytes := Value(), views, counters.entries, counters.bytes;
      passes := shards[i].SweepShard(clock, allowed, late, later);
      views := views[i := shards[i].Contents()];
      Settled(i, before, entries, bytes);
      SweepRuns(p, start, i, passes, capacity);
      if |before[i]| <= 20 && |before[i]| <= allowed(0) { SweepReclaims(before[i], passes, clock, allowed, late); }
      if old(Fits()) { SweepFits(start, i, passes); }
    }

    /** `applyRecoveredSet`: nothing is evicted while recovering. */
    method ApplyRecoveredSet(key: Key, entry: Entry)
      requires Valid()
      modifies this`views, shards[Home(key)], shards[Home(key)].nodes, counters
      ensures Valid() && views == old(views)[Home(key) := Put(old(views)[Home(key)], SC.Item(key, entry))]
      ensures counters.generation == old(counters.generation)
      ensures forall x :: x in shards[Home(key)].nodes ==> x in old(shards[Home(key)].nodes) || fresh(x)
    {
      hide Total, Sum, Lengths, Charges, Slice, S.Shard.Valid, S.Shard.Contents, Nodes, ShardAt, ShardOk, Put;
      var i := Home(key);
      Opened(i);
      ghost var before, entries, bytes := views, counters.entries, counters.bytes;
      var _ := shards[i].SetEntry(key, entry);
      views := views[i := shards[i].Contents()];
      Settled(i, before, entries, bytes);
    }

    /** What recovery does to the shards with the records of the log: after a replay the
        heap shows exactly the image the recovery theorems speak of. */
    method ReplayRecords(f: Filter, ops: seq<Op>, base: nat, ghost image: Image)
      requires Valid() && ValidFilter(f) && base + |ops| <= MAX_SEQUENCE && Shows(p, views, image)
      modifies this`views, shards, Nodes(|shards|), counters
      ensures Valid() && Shows(p, views, Fold(p, f, image, ops, base))
      ensures counters.generation == old(counters.generation)
      ensures forall x :: x in Nodes(|shards|) ==> x in old(Nodes(|shards|)) || fresh(x)
    {
      hide Total, Sum, Lengths, Charges, Slice, S.Shard.Valid, S.Shard.Contents, Nodes, ShardAt, ShardOk, Shows, Put, Without, Applies, ApplyOp;
      FoldNone(f, image, base);
      for i := 0 to |ops|
        invariant Valid() && Shows(p, views, Fold(p, f, image, ops[..i], base))
        invariant counters.generation == old(counters.generation)
        invariant forall j, x :: 0 <= j < |shards| && x in shards[j].nodes ==> x in old(Nodes(|shards|)) || fresh(x)
      {
        assert ops[..i + 1][..i] == ops[..i];
        var op, sequence := ops[i], base + i + 1;
        if Applies(p, f, op.key, sequence) {
          Opened(Home(op.key));
          RecordShows(p, views, Fold(p, f, image, ops[..i], base), op, sequence);
          if op.Set? {
            ApplyRecoveredSet(op.key, Entry(op.value, op.deadline, sequence));
          } else {
            Delete(op.key);
          }
        }
      }
      assert ops[..|ops|] == ops;
      forall x | x in Nodes(|shards|)
        ensures x in old(Nodes(|shards|)) || fresh(x)
      {
        var j := NodeAt(|shards|, x);
      }
    }

    lemma FoldNone(f: Filter, image: Image, base: nat)
      requires ValidFilter(f) && base <= MAX_SEQUENCE
      ensures Fold(p, f, image, [], base) == image
    {
    }

    /** `loadSnapshot`'s part: the entries of an image, in the order of the file. */
    method LoadItems(items: seq<Item>)
      requires Valid() && Shows(p, views, map[])
      modifies this`views, shards, Nodes(|shards|), counters
      ensures Valid() && Shows(p, views, ToImage(items)) && counters.generation == old(counters.generation)
      ensures forall x :: x in Nodes(|shards|) ==> x in old(Nodes(|shards|)) || fresh(x)
    {
      hide Total, Sum, Lengths, Charges, Slice, S.Shard.Valid, S.Shard.Contents, Nodes, ShardAt, ShardOk, Shows, Put;
      for i := 0 to |items|
        invariant Valid() && Shows(p, views, ToImage(items[..i])) && counters.generation == old(counters.generation)
        invariant forall j, x :: 0 <= j < |shards| && x in shards[j].nodes ==> x in old(Nodes(|shards|)) || fresh(x)
      {
        assert items[..i + 1][..i] == items[..i];
        var key, entry := items[i].key, items[i].entry;
        Opened(Home(key));
        RecordShows(p, views, ToImage(items[..i]), Op.Set(key, entry.value, entry.deadline), entry.sequence);
        ApplyRecoveredSet(key, entry);
      }
      assert items[..|items|] == items;
      forall x | x in Nodes(|shards|)
        ensures x in old(Nodes(|shards|)) || fresh(x)
      {
        var j := NodeAt(|shards|, x);
      }
    }

    /** One turn of `enforceRecoveredState`. */
    method EnforceShard(i: nat, now: int)
      requires Valid() && i < |shards|
      modifies this`views, shards[i], shards[i].nodes, counters
      ensures Valid() && views == old(views)[i := Enforced(old(views)[i], now, Slice(capacity, |shards|))]
      ensures forall x :: x in shards[i].nodes ==> x in old(shards[i].nodes)
      ensures Total(views[i]) <= Slice(capacity, |shards|)
    {
      hide Total, Sum, Lengths, Charges, Slice, S.Shard.Valid, S.Shard.Contents, Nodes, ShardAt, ShardOk, Reclaim, Evict;
      Opened(i);
      ghost var before, entries, bytes := views, counters.entries, counters.bytes;
      shards[i].ReclaimExpired(now);
      shards[i].EvictToCapacity(now);
      views := views[i := shards[i].Contents()];
      Settled(i, before, entries, bytes);
    }

    /** `enforceRecoveredState`: whatever was recovered, afterwards every shard is within
        its slice, and the totals are still the sums. */
    method EnforceRecoveredState(now: int)
      requires Valid()
      modifies this`views, shards, Nodes(|shards|), counters
      ensures Valid() && Fits()
      ensures |views| == |old(views)|
      ensures forall i :: 0 <= i < |views| ==> views[i] == Enforced(old(views)[i], now, Slice(capacity, |shards|))
      ensures forall x :: x in Nodes(|shards|) ==> x in old(Nodes(|shards|))
    {
      hide Total, Sum, Lengths, Charges, Slice, S.Shard.Valid, S.Shard.Contents, Nodes, ShardAt, ShardOk, Enforced;
      for i := 0 to |shards|
        invariant Valid()
        invariant forall j, x :: 0 <= j < |shards| && x in shards[j].nodes ==> x in old(Nodes(|shards|))
        invariant forall j :: 0 <= j < i ==>
          views[j] == Enforced(old(views)[j], now, Slice(capacity, |shards|)) && Total(views[j]) <= Slice(capacity, |shards|)
        invariant forall j :: i <= j < |shards| ==> views[j] == old(views)[j]
      {
        EnforceShard(i, now);
      }
      forall x | x in Nodes(|shards|)
        ensures x in old(Nodes(|shards|))
      {
        var j := NodeAt(|shards|, x);
      }
    }

    // ----- the writer's side -----

    /** The shards of a valid store hold keys of their own, each once. */
    lemma AllHoused()
      requires Valid()
      ensures Housed(p, views)
    {
      hide Total, Nodes, Sum, Lengths, Charges, Slice, S.Shard.Valid, S.Shard.Contents, ShardAt;
      forall i | 0 <= i < |views|
        ensures HousedAt(p, |views|, views[i], i)
      {
        Opened(i);
        Keys(i);
      }
    }

    lemma Keys(i: nat)
      requires Valid() && i < |shards|
      ensures forall j :: 0 <= j < |views[i]| ==> ShardOf(p, |shards|, views[i][j].key) == i
    {
      hide Total, Nodes, Sum, Lengths, Charges, Slice, S.Shard.Linked, S.Items;
      assert ShardAt(i, views[i]);
      forall j | 0 <= j < |views[i]|
        ensures ShardOf(p, |shards|, views[i][j].key) == i
      {
        assert shards[i].nodes[j].key in shards[i].entries;
      }
    }

    /** One record as `writeBatch` applies it. */
    method ApplyOne(op: Op, sequence: uint64, now: int)
      requires Valid()
      modifies this`views, shards, Nodes(|shards|), counters
      ensures Valid() && (old(Fits()) ==> Fits()) && WroteOne(old(views), op, sequence, now)
      ensures counters.generation == old(counters.generation) + LostByOne(old(views), op, sequence, now)
      ensures forall x :: x in Nodes(|shards|) ==> x in old(Nodes(|shards|)) || fresh(x)
    {
      hide Total, Sum, Lengths, Charges, Slice, S.Shard.Valid, S.Shard.Contents, Nodes, ShardAt, ShardOk, Recency.ApplySet, Without, Fits, Evicted;
      if op.Set? {
        Set(op.key, Entry(op.value, op.deadline, sequence), now);
      } else {
        Delete(op.key);
      }
      forall x | x in Nodes(|shards|)
        ensures x in old(Nodes(|shards|)) || fresh(x)
      {
        var j := NodeAt(|shards|, x);
      }
    }

    ghost predicate WroteOne(before: seq<seq<Item>>, op: Op, sequence: uint64, now: int)
      reads this`views
    {
      && before != []
      && var i := ShardOf(p, |before|, op.key);
         views == before[i := AfterWrite(before[i], op, sequence, now, Slice(capacity, |before|))]
    }

    ghost function LostByOne(before: seq<seq<Item>>, op: Op, sequence: uint64, now: int): nat {
      if before == [] then 0
      else EvictedByWrite(before[ShardOf(p, |before|, op.key)], op, sequence, now, Slice(capacity, |before|))
    }

    /** The records of a batch, in order, each at the time the clock shows then. */
    method ApplyRecords(ops: seq<Op>, base: nat, clock: nat -> int)
      requires Valid() && base + |ops| <= MAX_SEQUENCE
      modifies this`views, shards, Nodes(|shards|), counters
      ensures Valid() && (old(Fits()) ==> Fits()) && old(views) != []
      ensures views == AfterWrites(p, old(views), ops, base, clock, SliceOf())
      ensures counters.generation == old(counters.generation) + EvictedByAll(p, old(views), ops, base, clock, SliceOf())
      ensures forall x :: x in Nodes(|shards|) ==> x in old(Nodes(|shards|)) || fresh(x)
    {
      hide Total, Sum, Lengths, Charges, Slice, S.Shard.Valid, S.Shard.Contents, Nodes, ShardAt, ShardOk, Fits, AfterWrites, EvictedByAll, AfterWrite, EvictedByWrite;
      NoWrites(p, views, base, clock, SliceOf());
      assert ops[..0] == [];
      for i := 0 to |ops|
        invariant Valid() && (old(Fits()) ==> Fits())
        invariant views == AfterWrites(p, old(views), ops[..i], base, clock, SliceOf())
        invariant counters.generation == old(counters.generation) + EvictedByAll(p, old(views), ops[..i], base, clock, SliceOf())
        invariant forall x :: x in Nodes(|shards|) ==> x in old(Nodes(|shards|)) || fresh(x)
      {
        NextWrite(p, old(views), ops, i, base, clock, SliceOf());
        ApplyOne(ops[i], base + i + 1, clock(base + i + 1));
      }
      assert ops[..|ops|] == ops;
    }

    function SliceOf(): nat { if |shards| == 0 then 0 else Slice(capacity, |shards|) }

    // ----- any sequence of operations -----

    /** What the callers and the writer may do, in any order, any number of times: each call
        does to the value of the store, and answers, what the specification says, so the heap
        makes a run of the value model, its totals are the sums over the shards, and they
        stay within the capacity. */
    method Run(calls: seq<Call>) returns (answers: seq<Option<Bytes>>, ghost actions: seq<Action>, ghost at: seq<Accounting.Store>)
      requires Valid() && forall i :: 0 <= i < |calls| ==> calls[i].Sweeping? ==> calls[i].shard < |shards|
      modifies this`views, shards, Nodes(|shards|), counters
      ensures Valid() && (old(Fits()) ==> Fits() && counters.bytes == Sum(Charges(views)) <= capacity)
      ensures Runs(p, old(Value()), actions, Value(), capacity)
      ensures |answers| == |calls| && |at| == |calls| + 1 && at[0] == old(Value()) && at[|calls|] == Value()
      ensures forall i :: 0 <= i < |calls| ==> Performed(calls[i], at[i], at[i + 1], answers[i])
      ensures forall x :: x in Nodes(|shards|) ==> x in old(Nodes(|shards|)) || fresh(x)
    {
      hide Total, Sum, Lengths, Charges, Slice, S.Shard.Valid, S.Shard.Contents, Nodes, ShardAt, ShardOk, Runs, Follows, Fits, Value, SweepActions,
           Answer, SweptTo;
      actions, answers, at := [], [], [Value()];
      ghost var start := Value();
      NoSteps(start);
      for i := 0 to |calls|
        invariant Valid() && (old(Fits()) ==> Fits()) && Runs(p, start, actions, Value(), capacity)
        invariant |answers| == i && |at| == i + 1 && at[0] == start && at[i] == Value()
        invariant forall k :: 0 <= k < i ==> Performed(calls[k], at[k], at[k + 1], answers[k])
        invariant forall j, x :: 0 <= j < |shards| && x in shards[j].nodes ==> x in old(Nodes(|shards|)) || fresh(x)
      {
        ghost var before := Value();
        var answer := None;
        match calls[i] {
          case Setting(key, entry, now) =>
            Set(key, entry, now);
            RunsNext(p, start, actions, before, SetEntry(SC.Item(key, entry), now), Value(), capacity);
            actions := actions + [SetEntry(SC.Item(key, entry), now)];
          case Deleting(key) =>
            Delete(key);
            RunsNext(p, start, actions, before, DeleteKey(key), Value(), capacity);
            actions := actions + [DeleteKey(key)];
          case Getting(key, now) =>
            answer := Get(key, now);
            RunsNext(p, start, actions, before, Action.Get(key, now), Value(), capacity);
            actions := actions + [Action.Get(key, now)];
          case Sweeping(shard, clock, allowed, late) =>
            ghost var passes := Sweep(shard, clock, allowed, late, 0);
            RunsMore(p, start, actions, before, SweepActions(shard, passes), Value(), capacity);
            actions := actions + SweepActions(shard, passes);
        }
        assert Performed(calls[i], before, Value(), answer);
        answers, at := answers + [answer], at + [Value()];
      }
      if old(Fits()) { TotalsOfShards(); }
      forall x | x in Nodes(|shards|)
        ensures x in old(Nodes(|shards|)) || fresh(x)
      {
        var j := NodeAt(|shards|, x);
      }
    }

    lemma NoSteps(s: Accounting.Store)
      ensures Runs(p, s, [], s, capacity)
    {
    }
  }

  lemma EmptyShows(p: Platform, count: nat)
    requires count > 0
    ensures Shows(p, Empty(count), map[])
  {
    hide Empty;
    var lists := Empty(count);
    forall k
      ensures ShowsKey(p, lists, map[], k)
    {
      assert lists[ShardOf(p, count, k)] == [];
    }
  }

  /** `Open` on what recovery reads: load the image, replay the records behind it, and
      bring every shard within its slice. The heap shows the recovered image of the
      theorems, up to what `enforceRecoveredState` then takes from each shard. */
  method OpenStore(p: Platform, capacity: nat, count: nat, items: seq<Item>, f: Filter, ops: seq<Op>, base: nat, now: int)
    returns (store: Store, ghost recovered: seq<seq<Item>>)
    requires count > 0 && ValidFilter(f) && base + |ops| <= MAX_SEQUENCE
    ensures fresh(store) && fresh(store.counters) && store.Valid() && store.Fits()
    ensures store.p == p && store.capacity == capacity && |store.shards| == count
    ensures Shows(p, recovered, Fold(p, f, ToImage(items), ops, base))
    ensures |recovered| == |store.views| == count
    ensures forall i :: 0 <= i < count ==> store.views[i] == Enforced(recovered[i], now, Slice(capacity, count))
    ensures forall i :: 0 <= i < count ==> fresh(store.shards[i])
    ensures forall x :: x in store.Nodes(|store.shards|) ==> fresh(x)
  {
    hide Total, Sum, Lengths, Charges, Slice, S.Shard.Valid, S.Shard.Contents, Store.Nodes, Store.ShardAt, ShardOk, Shows, Enforced, Empty, ToImage, Fold;
    EmptyShows(p, count);
    store := new Store(p, capacity, count);
    store.LoadItems(items);
    store.ReplayRecords(f, ops, base, ToImage(items));
    recovered := store.views;
    store.EnforceRecoveredState(now);
  }

  /** A store from opening on: whatever was recovered and whatever is called afterwards,
      in any order, the totals are the sums over the shards and within the capacity. */
  method OpenAndRun(p: Platform, capacity: nat, count: nat, items: seq<Item>, f: Filter, ops: seq<Op>, base: nat, now: int, calls: seq<Call>)
    returns (store: Store, answers: seq<Option<Bytes>>, ghost recovered: seq<seq<Item>>, ghost at: seq<Accounting.Store>)
    requires count > 0 && ValidFilter(f) && base + |ops| <= MAX_SEQUENCE
    requires forall i :: 0 <= i < |calls| ==> calls[i].Sweeping? ==> calls[i].shard < count
    ensures fresh(store) && store.Valid() && store.Fits()
    ensures store.counters.entries == Sum(Lengths(store.views)) && store.counters.bytes == Sum(Charges(store.views)) <= capacity
    ensures Shows(p, recovered, Fold(p, f, ToImage(items), ops, base)) && |recovered| == count
    ensures |answers| == |calls| && |at| == |calls| + 1 && at[|calls|] == store.Value() && |at[0].shards| == count
    ensures forall i :: 0 <= i < count ==> at[0].shards[i] == Enforced(recovered[i], now, Slice(capacity, count))
    ensures forall i :: 0 <= i < |calls| ==> store.Performed(calls[i], at[i], at[i + 1], answers[i])
  {
    hide Total, Sum, Lengths, Charges, Slice, Store.Nodes, Store.Fits, Shows, Enforced, Fold;
    ghost var actions;
    store, recovered := OpenStore(p, capacity, count, items, f, ops, base, now);
    answers, actions, at := store.Run(calls);
  }
}
