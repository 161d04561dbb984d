/** A shard as a list of entries, most recent first: what the linked list is for. */
module Recency {
  import opened Base
  import opened Replay
  import opened Recovery
  import SC = SnapshotCodec

  type Item = SC.Item

  const ENTRY_OVERHEAD: nat := 72   // two string words, three slice words, deadline, sequence and two links

  /** `entrySize`. */
  function Charge(item: Item): nat { ENTRY_OVERHEAD + |item.key| + |item.entry.value| }

  function Total(s: seq<Item>): nat {
    if s == [] then 0 else Total(s[..|s| - 1]) + Charge(s[|s| - 1])
  }

  predicate Distinct(s: seq<Item>) {
    forall i, j :: 0 <= i < j < |s| ==> s[i].key != s[j].key
  }

  /** The list without the entry at `i`. */
  function Drop(s: seq<Item>, i: nat): seq<Item>
    requires i < |s|
  {
    s[..i] + s[i + 1..]
  }

  /** The entry at `i` becomes the most recent one. */
  function Promote(s: seq<Item>, i: nat): seq<Item>
    requires i < |s|
  {
    [s[i]] + Drop(s, i)
  }

  /** The list without the entry of `k`, if it has one. */
  function Without(s: seq<Item>, k: Key): seq<Item> {
    if s == [] then []
    else if s[|s| - 1].key == k then s[..|s| - 1]
    else Without(s[..|s| - 1], k) + [s[|s| - 1]]
  }

  /** `setEntryLocked`. */
  function Put(s: seq<Item>, item: Item): seq<Item> { [item] + Without(s, item.key) }

  /** `evictToCapacityLocked`: least recent first, until the rest fits. */
  function Evict(s: seq<Item>, capacity: nat): seq<Item> {
    if Total(s) <= capacity then s else Evict(s[..|s| - 1], capacity)
  }

  predicate Expired(item: Item, now: int) { DeadlinePassed(item.entry.deadline, now) }

  /** How many of these entries are still live: what an eviction loses. */
  function CountLive(s: seq<Item>, now: int): nat {
    if s == [] then 0 else (if Expired(s[0], now) then 0 else 1) + CountLive(s[1..], now)
  }

  /** `reclaimExpiredLocked`. */
  function Reclaim(s: seq<Item>, now: int): seq<Item> {
    if s == [] then []
    else if Expired(s[|s| - 1], now) then Reclaim(s[..|s| - 1], now)
    else Reclaim(s[..|s| - 1], now) + [s[|s| - 1]]
  }

  /** `applySet`: put the entry, then drop it if it is dead on arrival, or make room for it. */
  function ApplySet(s: seq<Item>, item: Item, now: int, capacity: nat): seq<Item> {
    if Expired(item, now) then Without(s, item.key) else Evict(Put(s, item), capacity)
  }

  /** What `Get` answers: the value of a live entry. */
  function GetValue(s: seq<Item>, k: Key, now: int): Option<Bytes> {
    if s == [] then None
    else if s[|s| - 1].key == k then (if Expired(s[|s| - 1], now) then None else Some(s[|s| - 1].entry.value))
    else GetValue(s[..|s| - 1], k, now)
  }

  /** What `Get` leaves: a live entry in front, an expired one gone. */
  function AfterGet(s: seq<Item>, k: Key, now: int): seq<Item> {
    if GetValue(s, k, now).None? then Without(s, k)
    else
      var i := LastOf(s, k);
      if i < |s| then Promote(s, i) else s
  }

  function LastOf(s: seq<Item>, k: Key): (i: nat)
    ensures i <= |s| && (i < |s| ==> s[i].key == k)
  {
    if s == [] then 0
    else if s[|s| - 1].key == k then |s| - 1
    else var i := LastOf(s[..|s| - 1], k); if i < |s| - 1 then i else |s|
  }

  lemma {:induction false} NoValue(s: seq<Item>, k: Key, now: int)
    requires forall i :: 0 <= i < |s| ==> s[i].key != k
    ensures GetValue(s, k, now) == None && AfterGet(s, k, now) == s
    decreases |s|
  {
    if s != [] { NoValue(s[..|s| - 1], k, now); }
    WithoutAbsent(s, k);
  }

  lemma {:induction false} OneValue(s: seq<Item>, i: nat, now: int)
    requires Distinct(s) && i < |s|
    ensures GetValue(s, s[i].key, now) == if Expired(s[i], now) then None else Some(s[i].entry.value)
    ensures LastOf(s, s[i].key) == i
    decreases |s|
  {
    if i < |s| - 1 { OneValue(s[..|s| - 1], i, now); }
  }

  lemma GetIsPromotion(s: seq<Item>, i: nat, now: int)
    requires Distinct(s) && i < |s|
    ensures GetValue(s, s[i].key, now) == if Expired(s[i], now) then None else Some(s[i].entry.value)
    ensures AfterGet(s, s[i].key, now) == if Expired(s[i], now) then Without(s, s[i].key) else Promote(s, i)
  {
    hide GetValue, LastOf, Without, Promote;
    OneValue(s, i, now);
  }

  /** A lookup answers with the value of a live entry and puts it in front of the others,
      whose order stays; an expired entry it takes out and does not answer with. */
  lemma GetFound(s: seq<Item>, i: nat, now: int)
    requires Distinct(s) && i < |s|
    ensures GetValue(s, s[i].key, now) == if Expired(s[i], now) then None else Some(s[i].entry.value)
    ensures AfterGet(s, s[i].key, now) == if Expired(s[i], now) then s[..i] + s[i + 1..] else [s[i]] + s[..i] + s[i + 1..]
  {
    hide GetValue, AfterGet, Without;
    GetIsPromotion(s, i, now);
    WithoutIsDrop(s, i);
    assert [s[i]] + (s[..i] + s[i + 1..]) == [s[i]] + s[..i] + s[i + 1..];
  }

  // ----- sums -----

  lemma {:induction false} TotalAppend(a: seq<Item>, b: seq<Item>)
    ensures Total(a + b) == Total(a) + Total(b)
    decreases |b|
  {
    if b == [] {
      assert a + b == a;
    } else {
      assert (a + b)[..|a| + |b| - 1] == a + b[..|b| - 1];
      TotalAppend(a, b[..|b| - 1]);
    }
  }

  lemma TotalOne(item: Item)
    ensures Total([item]) == Charge(item)
  {
    assert [item][..0] == [];
  }

  lemma TotalDrop(s: seq<Item>, i: nat)
    requires i < |s|
    ensures Total(Drop(s, i)) + Charge(s[i]) == Total(s)
    ensures Total(Promote(s, i)) == Total(s)
  {
    hide Total, Charge;
    assert s == s[..i] + [s[i]] + s[i + 1..];
    TotalAppend(s[..i] + [s[i]], s[i + 1..]);
    TotalAppend(s[..i], [s[i]]);
    TotalAppend(s[..i], s[i + 1..]);
    TotalAppend([s[i]], Drop(s, i));
    TotalOne(s[i]);
  }

  function KeyBytes(s: seq<Item>): nat { if s == [] then 0 else KeyBytes(s[..|s| - 1]) + |s[|s| - 1].key| }
  function ValueBytes(s: seq<Item>): nat { if s == [] then 0 else ValueBytes(s[..|s| - 1]) + |s[|s| - 1].entry.value| }

  /** The charge of a shard: 72 bytes per entry, and the bytes of its keys and values. */
  lemma {:induction false} TotalIsBytes(s: seq<Item>)
    ensures Total(s) == 72 * |s| + KeyBytes(s) + ValueBytes(s)
    decreases |s|
  {
    if s != [] { TotalIsBytes(s[..|s| - 1]); }
  }

  // ----- lookups -----

  /** In a list of distinct keys, dropping the entry at `i` is dropping its key. */
  lemma {:induction false} WithoutIsDrop(s: seq<Item>, i: nat)
    requires Distinct(s) && i < |s|
    ensures Without(s, s[i].key) == Drop(s, i)
    decreases |s|
  {
    var n := |s| - 1;
    if i < n {
      WithoutIsDrop(s[..n], i);
      assert Drop(s, i) == Drop(s[..n], i) + [s[n]];
    }
  }

  lemma {:induction false} WithoutAbsent(s: seq<Item>, k: Key)
    requires forall i :: 0 <= i < |s| ==> s[i].key != k
    ensures Without(s, k) == s
    decreases |s|
  {
    if s != [] {
      WithoutAbsent(s[..|s| - 1], k);
      assert s == s[..|s| - 1] + [s[|s| - 1]];
    }
  }

  lemma DistinctAfterDrop(s: seq<Item>, i: nat)
    requires Distinct(s) && i < |s|
    ensures Distinct(Drop(s, i)) && forall j :: 0 <= j < |Drop(s, i)| ==> Drop(s, i)[j].key != s[i].key
  {
  }

  lemma Position(s: seq<Item>, k: Key) returns (i: nat)
    ensures i <= |s|
    ensures if i < |s| then s[i].key == k else forall j :: 0 <= j < |s| ==> s[j].key != k
  {
    i := |s|;
    for j := 0 to |s|
      invariant i <= |s|
      invariant if i < |s| then s[i].key == k else forall l :: 0 <= l < j ==> s[l].key != k
    {
      if s[j].key == k { i := j; }
    }
  }

  /** Putting or removing a key keeps keys distinct. */
  lemma DistinctOps(s: seq<Item>, item: Item)
    requires Distinct(s)
    ensures Distinct(Without(s, item.key)) && Distinct(Put(s, item))
    ensures forall j :: 0 <= j < |Without(s, item.key)| ==> Without(s, item.key)[j].key != item.key
  {
    hide Without;
    var i := Position(s, item.key);
    if i < |s| {
      WithoutIsDrop(s, i);
      DistinctAfterDrop(s, i);
    } else {
      WithoutAbsent(s, item.key);
    }
  }

  lemma PutThenDrop(s: seq<Item>, item: Item)
    requires Distinct(s)
    ensures Drop(Put(s, item), 0) == Without(s, item.key)
  {
    hide Without;
  }

  /** Replacing an entry in place and moving it to the front is putting its new contents. */
  lemma ReplaceIsPut(s: seq<Item>, i: nat, item: Item)
    requires Distinct(s) && i < |s| && item.key == s[i].key
    ensures [item] + Drop(s[i := item], i) == Put(s, item)
    ensures Total(Put(s, item)) == Total(s) - Charge(s[i]) + Charge(item)
  {
    hide Total, Charge, Without;
    assert Drop(s[i := item], i) == Drop(s, i);
    WithoutIsDrop(s, i);
    TotalDrop(s, i);
    TotalAppend([item], Drop(s, i));
    TotalOne(item);
  }

  lemma ChargedAtLeast(s: seq<Item>, i: nat)
    requires i < |s|
    ensures Charge(s[i]) <= Total(s)
  {
    hide Total, Charge;
    TotalDrop(s, i);
  }

  lemma EvictStart(s: seq<Item>, now: int)
    ensures s[..|s|] == s && CountLive(s[|s|..], now) == 0
  {
  }

  /** One step of eviction, seen from the list it started with. */
  lemma EvictOne(s: seq<Item>, n: nat, capacity: nat, now: int)
    requires n <= |s| && Total(s[..n]) > capacity
    ensures n > 0 && Evict(s[..n], capacity) == Evict(s[..n - 1], capacity)
    ensures s[..n][..n - 1] == s[..n - 1]
    ensures CountLive(s[n - 1..], now) == CountLive(s[n..], now) + if Expired(s[n - 1], now) then 0 else 1
  {
    if n > 0 {
      assert s[..n][..n - 1] == s[..n - 1];
      assert s[n - 1..][1..] == s[n..];
    }
  }

  lemma EvictNothing(s: seq<Item>, capacity: nat)
    ensures Total(s) <= capacity ==> Evict(s, capacity) == s
  {
  }

  // ----- what the list holds, as an image -----

  lemma {:induction false} ImageAt(s: seq<Item>, i: nat)
    requires Distinct(s) && i < |s|
    ensures Lookup(ToImage(s), s[i].key) == Some(s[i].entry)
    decreases |s|
  {
    var n := |s| - 1;
    if i < n { ImageAt(s[..n], i); }
  }

  lemma {:induction false} ImageAbsent(s: seq<Item>, k: Key)
    requires forall i :: 0 <= i < |s| ==> s[i].key != k
    ensures k !in ToImage(s)
    decreases |s|
  {
    if s != [] { ImageAbsent(s[..|s| - 1], k); }
  }

  lemma DropLookup(s: seq<Item>, i: nat, k: Key)
    requires Distinct(s) && i < |s|
    ensures Lookup(ToImage(Drop(s, i)), k) == if k == s[i].key then None else Lookup(ToImage(s), k)
  {
    hide ToImage;
    var rest := Drop(s, i);
    DistinctAfterDrop(s, i);
    var l := Position(s, k);
    if l == i {
      ImageAbsent(rest, k);
    } else if l < |s| {
      var m := if l < i then l else l - 1;
      assert rest[m] == s[l];
      ImageAt(rest, m);
      ImageAt(s, l);
    } else {
      ImageAbsent(rest, k);
      ImageAbsent(s, k);
    }
  }

  lemma WithoutLookup(s: seq<Item>, gone: Key, k: Key)
    requires Distinct(s)
    ensures Lookup(ToImage(Without(s, gone)), k) == if k == gone then None else Lookup(ToImage(s), k)
  {
    hide ToImage, Without, Drop;
    var i := Position(s, gone);
    if i < |s| {
      WithoutIsDrop(s, i);
      DropLookup(s, i, k);
    } else {
      WithoutAbsent(s, gone);
      if k == gone { ImageAbsent(s, k); }
    }
  }

  lemma PutLookup(s: seq<Item>, item: Item, k: Key)
    requires Distinct(s)
    ensures Lookup(ToImage(Put(s, item)), k) == if k == item.key then Some(item.entry) else Lookup(ToImage(s), k)
  {
    hide ToImage, Without;
    var rest := Without(s, item.key);
    DistinctOps(s, item);
    WithoutLookup(s, item.key, k);
    if k == item.key {
      ImageAt(Put(s, item), 0);
    } else {
      var i := Position(rest, k);
      if i < |rest| {
        assert Put(s, item)[i + 1] == rest[i];
        ImageAt(Put(s, item), i + 1);
        ImageAt(rest, i);
      } else {
        ImageAbsent(Put(s, item), k);
        ImageAbsent(rest, k);
      }
    }
  }

  /** The list operations are the image operations of the protocol: a set, a delete. */
  lemma PutIsSet(s: seq<Item>, item: Item)
    requires Distinct(s)
    ensures ToImage(Put(s, item)) == ApplyOp(ToImage(s), Set(item.key, item.entry.value, item.entry.deadline), item.entry.sequence)
  {
    hide ToImage, Put;
    forall k
      ensures Lookup(ToImage(Put(s, item)), k) == Lookup(ToImage(s)[item.key := item.entry], k)
    {
      PutLookup(s, item, k);
    }
    SameLookups(ToImage(Put(s, item)), ToImage(s)[item.key := item.entry]);
  }

  lemma WithoutIsDelete(s: seq<Item>, key: Key, sequence: uint64)
    requires Distinct(s)
    ensures ToImage(Without(s, key)) == ApplyOp(ToImage(s), Delete(key), sequence)
  {
    hide ToImage, Without;
    forall k
      ensures Lookup(ToImage(Without(s, key)), k) == Lookup(ToImage(s) - {key}, k)
    {
      WithoutLookup(s, key, k);
    }
    SameLookups(ToImage(Without(s, key)), ToImage(s) - {key});
  }

  // ----- eviction -----

  /** Eviction is exact and minimal: it keeps the longest prefix that fits. */
  lemma {:induction false} EvictIsMinimal(s: seq<Item>, capacity: nat)
    ensures Evict(s, capacity) <= s
    ensures Total(Evict(s, capacity)) <= capacity
    ensures forall n :: |Evict(s, capacity)| < n <= |s| ==> Total(s[..n]) > capacity
    decreases |s|
  {
    if Total(s) > capacity {
      var m := |s| - 1;
      EvictIsMinimal(s[..m], capacity);
      forall n | |Evict(s, capacity)| < n <= |s|
        ensures Total(s[..n]) > capacity
      {
        if n == |s| { assert s[..n] == s; } else { assert s[..n] == s[..m][..n]; }
      }
    } else {
      assert s[..|s|] == s;
    }
  }

  /** An admitted entry is never evicted by its own application. */
  lemma OwnSetSurvives(s: seq<Item>, item: Item, now: int, capacity: nat)
    requires Charge(item) <= capacity && !Expired(item, now)
    ensures |ApplySet(s, item, now, capacity)| > 0 && ApplySet(s, item, now, capacity)[0] == item
  {
    hide Total, Charge, Without;
    var all := Put(s, item);
    EvictIsMinimal(all, capacity);
    TotalOne(item);
    assert all[..1] == [item];
  }

  /** Why entries are checked on the way in: a live one too large for its shard would take
      every other entry with it. */
  lemma TooLargeEmptiesShard(s: seq<Item>, item: Item, now: int, capacity: nat)
    requires !Expired(item, now)
    ensures 72 + |item.key| + |item.entry.value| > capacity <==> ApplySet(s, item, now, capacity) == []
  {
    hide Total, Without;
    var all := Put(s, item);
    EvictIsMinimal(all, capacity);
    TotalOne(item);
    assert all[..1] == [item];
    var kept := Evict(all, capacity);
    if kept != [] {
      assert kept[0] == item;
      ChargedAtLeast(kept, 0);
    }
  }

  /** Set, then get. An admitted entry is found with its value until its deadline, for
      good if it has none; from its deadline on it is not, also if it was dead on arrival. */
  lemma SetThenGet(s: seq<Item>, item: Item, now: int, capacity: nat, later: int)
    requires Distinct(s) && 72 + |item.key| + |item.entry.value| <= capacity && now <= later
    ensures
      var deadline := item.entry.deadline;
      GetValue(ApplySet(s, item, now, capacity), item.key, later)
        == if deadline == 0 || later < deadline then Some(item.entry.value) else None
  {
    hide Total, Without, Evict, GetValue;
    DistinctOps(s, item);
    if Expired(item, now) {
      NoValue(Without(s, item.key), item.key, later);
    } else {
      OwnSetSurvives(s, item, now, capacity);
      EvictIsMinimal(Put(s, item), capacity);
      assert Distinct(ApplySet(s, item, now, capacity)) by { PrefixDistinct(Put(s, item), ApplySet(s, item, now, capacity)); }
      OneValue(ApplySet(s, item, now, capacity), 0, later);
    }
  }

  lemma PrefixDistinct(s: seq<Item>, kept: seq<Item>)
    requires Distinct(s) && kept <= s
    ensures Distinct(kept)
  {
  }

  /** Within capacity before, within capacity after. */
  lemma ApplySetFits(s: seq<Item>, item: Item, now: int, capacity: nat)
    requires Distinct(s) && Total(s) <= capacity
    ensures Total(ApplySet(s, item, now, capacity)) <= capacity
    ensures Distinct(ApplySet(s, item, now, capacity))
  {
    hide Total, Charge, Without;
    DistinctOps(s, item);
    EvictIsMinimal(Put(s, item), capacity);
    var i := Position(s, item.key);
    if i < |s| {
      WithoutIsDrop(s, i);
      TotalDrop(s, i);
    } else {
      WithoutAbsent(s, item.key);
    }
  }

  lemma {:induction false} AllExpired(s: seq<Item>, now: int, i: nat)
    requires CountLive(s, now) == 0 && i < |s|
    ensures Expired(s[i], now)
  {
    if i > 0 { AllExpired(s[1..], now, i - 1); }
  }

  /** The kept part of a list shows each key as the whole list does, or not at all. */
  lemma PrefixLookup(s: seq<Item>, n: nat, now: int, k: Key)
    requires Distinct(s) && n <= |s|
    ensures
      var kept, held := Lookup(ToImage(s[..n]), k), Lookup(ToImage(s), k);
      && (kept == None || kept == held)
      && (CountLive(s[n..], now) == 0 ==> Agrees(kept, held, now))
  {
    hide ToImage;
    var i := Position(s, k);
    if i == |s| {
      ImageAbsent(s[..n], k);
      ImageAbsent(s, k);
    } else {
      ImageAt(s, i);
      if i < n {
        assert s[..n][i] == s[i];
        ImageAt(s[..n], i);
      } else {
        ImageAbsent(s[..n], k);
        if CountLive(s[n..], now) == 0 {
          AllExpired(s[n..], now, i - n);
          assert s[n..][i - n] == s[i];
        }
      }
    }
  }

  /** What an eviction counts is what a sweep would have kept. */
  lemma {:induction false} LiveIsKept(s: seq<Item>, now: int)
    ensures CountLive(s, now) == |Reclaim(s, now)|
    decreases |s|
  {
    if s != [] {
      var n := |s| - 1;
      LiveIsKept(s[..n], now);
      CountAppend(s[..n], [s[n]], now);
      assert s == s[..n] + [s[n]];
      assert CountLive([s[n]][1..], now) == 0;
    }
  }

  lemma {:induction false} CountAppend(a: seq<Item>, b: seq<Item>, now: int)
    ensures CountLive(a + b, now) == CountLive(a, now) + CountLive(b, now)
    decreases |a|
  {
    if a == [] {
      assert a + b == b;
    } else {
      assert (a + b)[1..] == a[1..] + b;
      CountAppend(a[1..], b, now);
    }
  }

  /** How many live entries `applySet` evicts: by this much the generation moves. */
  function Evicted(s: seq<Item>, item: Item, now: int, capacity: nat): nat {
    if Expired(item, now) then 0
    else CountLive(Put(s, item)[Kept(Put(s, item), capacity)..], now)
  }

  function Kept(s: seq<Item>, capacity: nat): (n: nat)
    ensures n <= |s| && Evict(s, capacity) == s[..n]
  {
    EvictIsMinimal(s, capacity);
    |Evict(s, capacity)|
  }

  /** `applySet` shows every key as the replayed record leaves it, or not at all; and
      as long as the eviction generation stands still, the only entries missing are
      expired ones. */
  lemma ApplySetLosesOnlyCounted(s: seq<Item>, item: Item, now: int, capacity: nat, k: Key)
    requires Distinct(s)
    ensures
      var held := Lookup(ToImage(ApplySet(s, item, now, capacity)), k);
      var truth := Lookup(ApplyOp(ToImage(s), Set(item.key, item.entry.value, item.entry.deadline), item.entry.sequence), k);
      && (held == None || held == truth)
      && (Evicted(s, item, now, capacity) == 0 ==> Agrees(held, truth, now))
  {
    hide ToImage, Put, Evict, CountLive, Without;
    PutIsSet(s, item);
    if Expired(item, now) {
      WithoutLookup(s, item.key, k);
    } else {
      DistinctOps(s, item);
      PrefixLookup(Put(s, item), Kept(Put(s, item), capacity), now, k);
    }
  }

  // ----- expiry -----

  lemma ImageSnoc(s: seq<Item>, item: Item, k: Key)
    ensures Lookup(ToImage(s + [item]), k) == if k == item.key then Some(item.entry) else Lookup(ToImage(s), k)
  {
    assert (s + [item])[..|s|] == s;
  }

  /** The sweep in progress: expired entries with a key in `seen` are gone. */
  function ReclaimSeen(s: seq<Item>, now: int, seen: set<Key>): seq<Item> {
    if s == [] then []
    else if Expired(s[|s| - 1], now) && s[|s| - 1].key in seen then ReclaimSeen(s[..|s| - 1], now, seen)
    else ReclaimSeen(s[..|s| - 1], now, seen) + [s[|s| - 1]]
  }

  /** One pass of a sweep: the time it read and the keys it looked at. */
  datatype Pass = Pass(now: int, seen: set<Key>)

  /** What a whole sweep leaves. */
  function Swept(s: seq<Item>, passes: seq<Pass>): seq<Item> {
    if passes == [] then s
    else
      var n := |passes| - 1;
      ReclaimSeen(Swept(s, passes[..n]), passes[n].now, passes[n].seen)
  }

  function KeysOf(s: seq<Item>): set<Key> { set i | 0 <= i < |s| :: s[i].key }

  predicate NoneExpired(s: seq<Item>, now: int) { forall i :: 0 <= i < |s| ==> !Expired(s[i], now) }

  /** A pass reads the clock, and looks at as many entries as the time and the sample size
      let it, or at all there are. */
  predicate PassOk(before: seq<Item>, pass: Pass, now: int, allowed: nat) {
    && pass.now == now && pass.seen <= KeysOf(before)
    && |pass.seen| <= allowed && |pass.seen| <= 20
    && (|pass.seen| == allowed || |pass.seen| == 20 || pass.seen == KeysOf(before))
  }

  /** The sweep ends when it saw nothing, when less than a quarter of what it saw had
      expired, or when its time is up. */
  predicate Ends(before: seq<Item>, pass: Pass, late: bool) {
    |pass.seen| == 0 || 4 * (|before| - |ReclaimSeen(before, pass.now, pass.seen)|) < |pass.seen| || late
  }

  /** `passes` are the passes of one sweep, from the `from`-th on: each as it should be, and
      the last one, and only it, a pass that ends the sweep. */
  predicate IsSweep(s: seq<Item>, passes: seq<Pass>, from: nat, clock: nat -> int, allowed: nat -> nat, late: nat -> bool)
    decreases |passes|
  {
    && passes != [] && PassOk(s, passes[0], clock(from), allowed(from))
    && (if Ends(s, passes[0], late(from)) then passes == [passes[0]]
        else IsSweep(ReclaimSeen(s, passes[0].now, passes[0].seen), passes[1..], from + 1, clock, allowed, late))
  }

  /** A sweep in the making: none of these passes has ended it. */
  predicate GoesOn(s: seq<Item>, passes: seq<Pass>, from: nat, clock: nat -> int, allowed: nat -> nat, late: nat -> bool)
    decreases |passes|
  {
    passes != [] ==>
      && PassOk(s, passes[0], clock(from), allowed(from)) && !Ends(s, passes[0], late(from))
      && GoesOn(ReclaimSeen(s, passes[0].now, passes[0].seen), passes[1..], from + 1, clock, allowed, late)
  }

  lemma {:induction false} OnePassMore(s: seq<Item>, passes: seq<Pass>, from: nat, pass: Pass,
                                       clock: nat -> int, allowed: nat -> nat, late: nat -> bool)
    requires GoesOn(s, passes, from, clock, allowed, late)
    requires PassOk(Swept(s, passes), pass, clock(from + |passes|), allowed(from + |passes|))
    ensures if Ends(Swept(s, passes), pass, late(from + |passes|)) then IsSweep(s, passes + [pass], from, clock, allowed, late)
            else GoesOn(s, passes + [pass], from, clock, allowed, late)
    decreases |passes|
  {
    hide ReclaimSeen, PassOk, Ends;
    if passes == [] {
      assert ([] + [pass])[1..] == [];
    } else {
      var rest := ReclaimSeen(s, passes[0].now, passes[0].seen);
      SweptFirst(s, passes);
      OnePassMore(rest, passes[1..], from + 1, pass, clock, allowed, late);
      assert (passes + [pass])[1..] == passes[1..] + [pass];
    }
  }

  lemma {:induction false} SweptFirst(s: seq<Item>, passes: seq<Pass>)
    requires passes != []
    ensures Swept(s, passes) == Swept(ReclaimSeen(s, passes[0].now, passes[0].seen), passes[1..])
    decreases |passes|
  {
    hide ReclaimSeen;
    var n := |passes| - 1;
    if n == 0 {
      assert passes[..0] == [] && passes[1..] == [];
    } else {
      SweptFirst(s, passes[..n]);
      assert passes[..n][1..] == passes[1..][..n - 1];
    }
  }

  /** Whatever a sweep does after a pass that saw every entry, none that had expired then is left. */
  lemma {:induction false} SeenAllLeavesNone(s: seq<Item>, now: int, seen: set<Key>)
    requires KeysOf(s) <= seen
    ensures NoneExpired(ReclaimSeen(s, now, seen), now)
    decreases |s|
  {
    if s != [] {
      var n := |s| - 1;
      assert s[n].key in KeysOf(s);
      assert KeysOf(s[..n]) <= KeysOf(s) by { assert forall i :: 0 <= i < n ==> s[..n][i].key == s[i].key; }
      SeenAllLeavesNone(s[..n], now, seen);
    }
  }

  lemma StaysNone(s: seq<Item>, now: int, seen: set<Key>, past: int)
    requires NoneExpired(s, past)
    ensures NoneExpired(ReclaimSeen(s, now, seen), past)
  {
    hide ReclaimSeen;
    forall j | 0 <= j < |ReclaimSeen(s, now, seen)|
      ensures !Expired(ReclaimSeen(s, now, seen)[j], past)
    {
      var i := ReclaimSeenAt(s, now, seen, j);
    }
  }

  lemma {:induction false} SweptStaysNone(s: seq<Item>, passes: seq<Pass>, past: int)
    requires NoneExpired(s, past)
    ensures NoneExpired(Swept(s, passes), past)
    decreases |passes|
  {
    hide ReclaimSeen;
    if passes != [] {
      var n := |passes| - 1;
      SweptStaysNone(s, passes[..n], past);
      StaysNone(Swept(s, passes[..n]), passes[n].now, passes[n].seen, past);
    }
  }

  /** A sweep whose first pass may see every entry leaves none that has expired by then. */
  lemma SweepReclaims(s: seq<Item>, passes: seq<Pass>, clock: nat -> int, allowed: nat -> nat, late: nat -> bool)
    requires IsSweep(s, passes, 0, clock, allowed, late) && |s| <= 20 && |s| <= allowed(0)
    ensures NoneExpired(Swept(s, passes), clock(0))
  {
    hide ReclaimSeen, Swept, IsSweep;
    assert PassOk(s, passes[0], clock(0), allowed(0)) by { FirstPass(s, passes, clock, allowed, late); }
    FewKeys(s);
    SameSize(passes[0].seen, KeysOf(s));
    SeenAllLeavesNone(s, clock(0), passes[0].seen);
    SweptFirst(s, passes);
    SweptStaysNone(ReclaimSeen(s, clock(0), passes[0].seen), passes[1..], clock(0));
  }

  lemma FirstPass(s: seq<Item>, passes: seq<Pass>, clock: nat -> int, allowed: nat -> nat, late: nat -> bool)
    requires IsSweep(s, passes, 0, clock, allowed, late)
    ensures passes != [] && PassOk(s, passes[0], clock(0), allowed(0))
  {
  }

  lemma {:induction false} FewKeys(s: seq<Item>)
    ensures |KeysOf(s)| <= |s|
    decreases |s|
  {
    if s != [] {
      var n := |s| - 1;
      FewKeys(s[..n]);
      assert KeysOf(s) == KeysOf(s[..n]) + {s[n].key} by {
        assert forall i :: 0 <= i < n ==> s[..n][i].key == s[i].key;
      }
    }
  }

  lemma {:induction false} SameSize(a: set<Key>, b: set<Key>)
    requires a <= b && |a| >= |b|
    ensures a == b
  {
    if a != b {
      if !(exists x :: x in b && x !in a) { assert false; }
      var x :| x in b && x !in a;
      Subset(a, b - {x});
    }
  }

  lemma {:induction false} Subset(a: set<Key>, b: set<Key>)
    requires a <= b
    ensures |a| <= |b|
    decreases |a|
  {
    if a != {} {
      if !(exists x :: x in a) { assert false; }
      var x :| x in a;
      Subset(a - {x}, b - {x});
    }
  }

  lemma SweptNext(s: seq<Item>, passes: seq<Pass>, pass: Pass)
    ensures Swept(s, passes + [pass]) == ReclaimSeen(Swept(s, passes), pass.now, pass.seen)
  {
    hide ReclaimSeen;
    assert (passes + [pass])[..|passes|] == passes;
  }

  lemma {:induction false} SweepKeeps(s: seq<Item>, now: int, seen: set<Key>, k: Key)
    requires Distinct(s)
    ensures
      var kept := Lookup(ToImage(ReclaimSeen(s, now, seen)), k);
      var held := Lookup(ToImage(s), k);
      if held.Some? && DeadlinePassed(held.value.deadline, now) && k in seen then kept == None else kept == held
    decreases |s|
  {
    hide ToImage;
    if s == [] {
      ImageAbsent(s, k);
    } else {
      var n := |s| - 1;
      var kept := ReclaimSeen(s[..n], now, seen);
      SweepKeeps(s[..n], now, seen, k);
      assert s == s[..n] + [s[n]];
      ImageSnoc(s[..n], s[n], k);
      ImageSnoc(kept, s[n], k);
      if k == s[n].key { ImageAbsent(s[..n], k); }
    }
  }

  /** Reclaiming expired entries, all of them or a sample, changes nothing a reader
      can see, now or later. */
  lemma SweepIsInvisible(s: seq<Item>, now: int, seen: set<Key>, later: int)
    requires Distinct(s) && now <= later
    ensures Live(ToImage(ReclaimSeen(s, now, seen)), later) == Live(ToImage(s), later)
  {
    hide ToImage, ReclaimSeen;
    forall k
      ensures Lookup(Live(ToImage(ReclaimSeen(s, now, seen)), later), k) == Lookup(Live(ToImage(s), later), k)
    {
      SweepKeeps(s, now, seen, k);
    }
    SameLookups(Live(ToImage(ReclaimSeen(s, now, seen)), later), Live(ToImage(s), later));
  }

  lemma {:induction false} SweepTotal(list: seq<Item>, now: int, seen: set<Key>)
    ensures Total(ReclaimSeen(list, now, seen)) <= Total(list)
    decreases |list|
  {
    if list != [] {
      var n := |list| - 1;
      SweepTotal(list[..n], now, seen);
      var kept := ReclaimSeen(list[..n], now, seen);
      assert (kept + [list[n]])[..|kept|] == kept;
    }
  }

  lemma {:induction false} SweepAbsent(list: seq<Item>, now: int, seen: set<Key>, key: Key)
    requires forall j :: 0 <= j < |list| ==> list[j].key != key
    ensures forall j :: 0 <= j < |ReclaimSeen(list, now, seen)| ==> ReclaimSeen(list, now, seen)[j].key != key
    decreases |list|
  {
    if list != [] { SweepAbsent(list[..|list| - 1], now, seen, key); }
  }

  lemma {:induction false} SweepDistinct(list: seq<Item>, now: int, seen: set<Key>)
    requires Distinct(list)
    ensures Distinct(ReclaimSeen(list, now, seen))
    decreases |list|
  {
    if list != [] {
      var n := |list| - 1;
      SweepDistinct(list[..n], now, seen);
      SweepAbsent(list[..n], now, seen, list[n].key);
    }
  }

  /** A sweep keeps keys distinct and never adds to the charge. */
  lemma {:induction false} SweptOk(list: seq<Item>, passes: seq<Pass>)
    requires Distinct(list)
    ensures Distinct(Swept(list, passes)) && Total(Swept(list, passes)) <= Total(list)
    decreases |passes|
  {
    hide ReclaimSeen, Total;
    if passes != [] {
      var n := |passes| - 1;
      SweptOk(list, passes[..n]);
      SweepDistinct(Swept(list, passes[..n]), passes[n].now, passes[n].seen);
      SweepTotal(Swept(list, passes[..n]), passes[n].now, passes[n].seen);
    }
  }

  lemma {:induction false} ReclaimNone(s: seq<Item>, now: int)
    ensures ReclaimSeen(s, now, {}) == s
    decreases |s|
  {
    if s != [] {
      ReclaimNone(s[..|s| - 1], now);
      assert s == s[..|s| - 1] + [s[|s| - 1]];
    }
  }

  lemma {:induction false} ReclaimAll(s: seq<Item>, now: int, seen: set<Key>)
    requires forall i :: 0 <= i < |s| ==> s[i].key in seen
    ensures ReclaimSeen(s, now, seen) == Reclaim(s, now)
    decreases |s|
  {
    if s != [] { ReclaimAll(s[..|s| - 1], now, seen); }
  }

  /** Every entry the sweep keeps was there before. */
  lemma {:induction false} ReclaimSeenAt(s: seq<Item>, now: int, seen: set<Key>, j: nat) returns (i: nat)
    requires j < |ReclaimSeen(s, now, seen)|
    ensures i < |s| && s[i] == ReclaimSeen(s, now, seen)[j]
    decreases |s|
  {
    var n := |s| - 1;
    var before := ReclaimSeen(s[..n], now, seen);
    if j < |before| { i := ReclaimSeenAt(s[..n], now, seen, j); } else { i := n; }
  }

  /** What a sweep of these keys takes: the entries among them whose deadline is set and
      not later than now, and no other. */
  lemma {:induction false} ReclaimSeenIs(s: seq<Item>, now: int, seen: set<Key>, item: Item)
    ensures item in ReclaimSeen(s, now, seen)
       <==> item in s && !(item.key in seen && item.entry.deadline != 0 && item.entry.deadline <= now)
    decreases |s|
  {
    if s != [] {
      var n := |s| - 1;
      ReclaimSeenIs(s[..n], now, seen, item);
      assert s == s[..n] + [s[n]];
    }
  }

  /** Looking at one more key. */
  lemma {:induction false} ReclaimNext(s: seq<Item>, now: int, seen: set<Key>, i: nat)
    requires Distinct(s) && i < |s| && s[i].key !in seen
    ensures ReclaimSeen(s, now, seen + {s[i].key})
         == if Expired(s[i], now) then Without(ReclaimSeen(s, now, seen), s[i].key) else ReclaimSeen(s, now, seen)
    decreases |s|
  {
    var n := |s| - 1;
    var k := s[i].key;
    var before := ReclaimSeen(s[..n], now, seen);
    if i < n {
      ReclaimNext(s[..n], now, seen, i);
      assert s[n].key != k;
      assert (before + [s[n]])[..|before|] == before;
    } else {
      ReclaimOther(s[..n], now, seen, k);
      forall j | 0 <= j < |before|
        ensures before[j].key != k
      {
        var l := ReclaimSeenAt(s[..n], now, seen, j);
      }
      if Expired(s[n], now) {
        assert (before + [s[n]])[..|before|] == before;
      }
    }
  }

  /** One step of the sweep, seen from the list it works on. */
  lemma SweepStep(start: seq<Item>, now: int, seen: set<Key>, s: seq<Item>, i: nat)
    requires Distinct(start) && s == ReclaimSeen(start, now, seen) && i < |s| && s[i].key !in seen
    ensures ReclaimSeen(start, now, seen + {s[i].key}) == if Expired(s[i], now) then Without(s, s[i].key) else s
  {
    hide ReclaimSeen, Without;
    var j := ReclaimSeenAt(start, now, seen, i);
    ReclaimNext(start, now, seen, j);
  }

  lemma {:induction false} ReclaimOther(s: seq<Item>, now: int, seen: set<Key>, k: Key)
    requires forall i :: 0 <= i < |s| ==> s[i].key != k
    ensures ReclaimSeen(s, now, seen + {k}) == ReclaimSeen(s, now, seen)
    decreases |s|
  {
    if s != [] { ReclaimOther(s[..|s| - 1], now, seen, k); }
  }
}
