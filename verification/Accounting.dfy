/** The shards of a store together: totals kept by differences, one capacity. */
module Accounting {
  import opened Base
  import opened Recency

  function Sum(s: seq<int>): int {
    if s == [] then 0 else Sum(s[..|s| - 1]) + s[|s| - 1]
  }

  lemma {:induction false} SumUpdate(s: seq<int>, i: nat, x: int)
    requires i < |s|
    ensures Sum(s[i := x]) == Sum(s) - s[i] + x
    decreases |s|
  {
    var n := |s| - 1;
    if i < n {
      SumUpdate(s[..n], i, x);
      assert s[i := x][..n] == s[..n][i := x];
    } else {
      assert s[i := x][..n] == s[..n];
    }
  }

  lemma {:induction false} SumBound(s: seq<int>, bound: int)
    requires forall i :: 0 <= i < |s| ==> s[i] <= bound
    ensures Sum(s) <= |s| * bound
    decreases |s|
  {
    if s != [] {
      SumBound(s[..|s| - 1], bound);
      assert |s| * bound == (|s| - 1) * bound + bound;
    }
  }

  /** The shards' contents, and the two counters the store keeps beside them. */
  datatype Store = Store(shards: seq<seq<Item>>, entries: int, bytes: int)

  datatype Action =
    | SetEntry(item: Item, now: int)
    | DeleteKey(key: Key)
    | Get(key: Key, now: int)
    | Sweep(shard: nat, now: int, sample: set<Key>)

  /** The slice of the capacity each shard gets. */
  function Slice(capacity: nat, shards: nat): nat
    requires shards > 0
  {
    capacity / shards
  }

  function Target(p: Platform, s: Store, a: Action): nat
    requires |s.shards| > 0
  {
    match a
    case SetEntry(item, _) => ShardOf(p, |s.shards|, item.key)
    case DeleteKey(key) => ShardOf(p, |s.shards|, key)
    case Get(key, _) => ShardOf(p, |s.shards|, key)
    case Sweep(shard, _, _) => shard
  }

  /** What the operation makes of the shard it touches. */
  function After(list: seq<Item>, a: Action, slice: nat): seq<Item> {
    match a
    case SetEntry(item, now) => ApplySet(list, item, now, slice)
    case DeleteKey(key) => Without(list, key)
    case Get(key, now) => AfterGet(list, key, now)
    case Sweep(_, now, sample) => ReclaimSeen(list, now, sample)
  }

  /** The counters move by the difference the one shard makes. */
  function Step(p: Platform, s: Store, a: Action, capacity: nat): Store
    requires |s.shards| > 0 && Target(p, s, a) < |s.shards|
  {
    var i := Target(p, s, a);
    var before := s.shards[i];
    var after := After(before, a, Slice(capacity, |s.shards|));
    Store(s.shards[i := after], s.entries + |after| - |before|, s.bytes + Total(after) - Total(before))
  }

  function Lengths(shards: seq<seq<Item>>): seq<int> { seq(|shards|, i requires 0 <= i < |shards| => |shards[i]|) }
  function Charges(shards: seq<seq<Item>>): seq<int> { seq(|shards|, i requires 0 <= i < |shards| => Total(shards[i])) }

  predicate ShardOk(list: seq<Item>, slice: nat) { Distinct(list) && Total(list) <= slice }

  ghost predicate Inv(s: Store, capacity: nat) {
    && |s.shards| > 0
    && s.entries == Sum(Lengths(s.shards)) && s.bytes == Sum(Charges(s.shards))
    && forall i :: 0 <= i < |s.shards| ==> ShardOk(s.shards[i], Slice(capacity, |s.shards|))
  }

  // ----- each operation keeps a shard within its slice -----

  lemma WithoutOk(list: seq<Item>, key: Key, slice: nat)
    requires ShardOk(list, slice)
    ensures ShardOk(Without(list, key), slice)
  {
    hide Total, Without, Charge;
    var i := Position(list, key);
    if i < |list| {
      WithoutIsDrop(list, i);
      DistinctAfterDrop(list, i);
      TotalDrop(list, i);
    } else {
      WithoutAbsent(list, key);
    }
  }

  lemma GetOk(list: seq<Item>, key: Key, now: int, slice: nat)
    requires ShardOk(list, slice)
    ensures ShardOk(AfterGet(list, key, now), slice)
  {
    hide Total, Without, Charge, GetValue;
    WithoutOk(list, key, slice);
    var i := Position(list, key);
    if i < |list| {
      OneValue(list, i, now);
      DistinctAfterDrop(list, i);
      TotalDrop(list, i);
    } else {
      NoValue(list, key, now);
    }
  }

  lemma AfterOk(list: seq<Item>, a: Action, slice: nat)
    requires ShardOk(list, slice)
    ensures ShardOk(After(list, a, slice), slice)
  {
    hide Total, Without, ReclaimSeen, ApplySet, AfterGet;
    match a
    case SetEntry(item, now) => ApplySetFits(list, item, now, slice);
    case DeleteKey(key) => WithoutOk(list, key, slice);
    case Get(key, now) => GetOk(list, key, now, slice);
    case Sweep(_, now, sample) => SweepTotal(list, now, sample); SweepDistinct(list, now, sample);
  }

  lemma StepInv(p: Platform, s: Store, a: Action, capacity: nat)
    requires Inv(s, capacity) && Target(p, s, a) < |s.shards|
    ensures Inv(Step(p, s, a, capacity), capacity)
  {
    hide Total, After, Sum, ShardOk, Slice, Lengths, Charges;
    var i := Target(p, s, a);
    var after := After(s.shards[i], a, Slice(capacity, |s.shards|));
    AfterOk(s.shards[i], a, Slice(capacity, |s.shards|));
    Difference(s.shards, i, after);
  }

  /** Several steps, one after the other. */
  ghost predicate Runs(p: Platform, s: Store, actions: seq<Action>, s': Store, capacity: nat)
    decreases |actions|
  {
    if actions == [] then s' == s
    else
      var n := |actions| - 1;
      exists mid :: Runs(p, s, actions[..n], mid, capacity) && Follows(p, mid, actions[n], s', capacity)
  }

  lemma RunsNext(p: Platform, s: Store, actions: seq<Action>, mid: Store, a: Action, s': Store, capacity: nat)
    requires Runs(p, s, actions, mid, capacity) && Follows(p, mid, a, s', capacity)
    ensures Runs(p, s, actions + [a], s', capacity)
  {
    hide Follows;
    assert (actions + [a])[..|actions|] == actions;
  }

  lemma {:induction false} RunsMore(p: Platform, s: Store, actions: seq<Action>, mid: Store, more: seq<Action>, s': Store, capacity: nat)
    requires Runs(p, s, actions, mid, capacity) && Runs(p, mid, more, s', capacity)
    ensures Runs(p, s, actions + more, s', capacity)
    decreases |more|
  {
    hide Follows;
    if more == [] {
      assert actions + more == actions;
    } else {
      var n := |more| - 1;
      var last :| Runs(p, mid, more[..n], last, capacity) && Follows(p, last, more[n], s', capacity);
      RunsMore(p, s, actions, mid, more[..n], last, capacity);
      RunsNext(p, s, actions + more[..n], last, more[n], s', capacity);
      assert actions + more == (actions + more[..n]) + [more[n]];
    }
  }

  /** A sweep of several passes, as steps of the store. */
  function SweepActions(shard: nat, passes: seq<Pass>): seq<Action> {
    seq(|passes|, i requires 0 <= i < |passes| => Sweep(shard, passes[i].now, passes[i].seen))
  }

  /** The store with one shard replaced and the totals moved with it. */
  function Replaced(s: Store, i: nat, list: seq<Item>): Store
    requires i < |s.shards|
  {
    Store(s.shards[i := list], s.entries + |list| - |s.shards[i]|, s.bytes + Total(list) - Total(s.shards[i]))
  }

  lemma {:induction false} SweepRuns(p: Platform, s: Store, i: nat, passes: seq<Pass>, capacity: nat)
    requires i < |s.shards|
    ensures Runs(p, s, SweepActions(i, passes), Replaced(s, i, Swept(s.shards[i], passes)), capacity)
    decreases |passes|
  {
    hide ReclaimSeen, Total;
    if passes == [] {
      assert s.shards[i := s.shards[i]] == s.shards;
    } else {
      var n := |passes| - 1;
      SweepRuns(p, s, i, passes[..n], capacity);
      var mid := Replaced(s, i, Swept(s.shards[i], passes[..n]));
      var last := Replaced(s, i, Swept(s.shards[i], passes));
      assert last.shards == mid.shards[i := Swept(s.shards[i], passes)];
      var a := Sweep(i, passes[n].now, passes[n].seen);
      assert Follows(p, mid, a, last, capacity);
      RunsNext(p, s, SweepActions(i, passes[..n]), mid, a, last, capacity);
      assert SweepActions(i, passes) == SweepActions(i, passes[..n]) + [a];
    }
  }

  ghost predicate IsRun(p: Platform, states: seq<Store>, actions: seq<Action>, capacity: nat) {
    && |states| == |actions| + 1 && Inv(states[0], capacity)
    && forall i :: 0 <= i < |actions| ==> Follows(p, states[i], actions[i], states[i + 1], capacity)
  }

  predicate Follows(p: Platform, s: Store, a: Action, s': Store, capacity: nat) {
    |s.shards| > 0 && Target(p, s, a) < |s.shards| && s' == Step(p, s, a, capacity)
  }

  lemma {:induction false} RunInv(p: Platform, states: seq<Store>, actions: seq<Action>, capacity: nat, i: nat)
    requires IsRun(p, states, actions, capacity) && i < |states|
    ensures Inv(states[i], capacity)
  {
    hide Inv, Step;
    if i > 0 {
      RunInv(p, states, actions, capacity, i - 1);
      assert Follows(p, states[i - 1], actions[i - 1], states[i], capacity);
      StepInv(p, states[i - 1], actions[i - 1], capacity);
    }
  }

  /** Between operations `Len` and `Bytes` are the sums over the shards, and the
      charged bytes never exceed the configured capacity, although it is divided
      with truncation and enforced shard by shard. */
  lemma TotalsAreSums(p: Platform, states: seq<Store>, actions: seq<Action>, capacity: nat, i: nat)
    requires IsRun(p, states, actions, capacity) && i < |states|
    ensures states[i].entries == Sum(Lengths(states[i].shards))
    ensures states[i].bytes == Sum(Charges(states[i].shards)) <= capacity
  {
    hide Sum, Total;
    RunInv(p, states, actions, capacity, i);
    var s := states[i];
    var slice := Slice(capacity, |s.shards|);
    forall j | 0 <= j < |Charges(s.shards)|
      ensures Charges(s.shards)[j] <= slice
    {
      assert ShardOk(s.shards[j], slice);
    }
    SumBound(Charges(s.shards), slice);
    SlicesFit(capacity, |s.shards|);
  }

  lemma SlicesFit(capacity: nat, shards: nat)
    requires shards > 0
    ensures shards * Slice(capacity, shards) <= capacity < shards * (Slice(capacity, shards) + 1)
  {
  }

  // ----- where runs start: `enforceRecoveredState` -----

  /** Reclaim, then evict: whatever was recovered fits afterwards. */
  function Enforced(list: seq<Item>, now: int, slice: nat): seq<Item> { Evict(Reclaim(list, now), slice) }

  lemma EnforcedOk(list: seq<Item>, now: int, slice: nat)
    requires Distinct(list)
    ensures ShardOk(Enforced(list, now, slice), slice)
  {
    hide Total, Reclaim, ReclaimSeen, Evict;
    var keys := set i | 0 <= i < |list| :: list[i].key;
    ReclaimAll(list, now, keys);
    SweepDistinct(list, now, keys);
    EvictIsMinimal(Reclaim(list, now), slice);
  }

  /** What opening takes from a shard: the expired entries, and then, only if the others do
      not fit, as few of the least recent as it takes. */
  lemma EnforcedIs(list: seq<Item>, now: int, slice: nat) returns (live: seq<Item>)
    ensures forall item :: item in live <==> item in list && (item.entry.deadline == 0 || now < item.entry.deadline)
    ensures Enforced(list, now, slice) <= live
    ensures Total(live) <= slice ==> Enforced(list, now, slice) == live
    ensures forall n :: |Enforced(list, now, slice)| < n <= |live| ==> Total(live[..n]) > slice
  {
    hide Total, Reclaim, ReclaimSeen, Evict;
    live := Reclaim(list, now);
    var keys := set i | 0 <= i < |list| :: list[i].key;
    ReclaimAll(list, now, keys);
    forall item
      ensures item in live <==> item in list && (item.entry.deadline == 0 || now < item.entry.deadline)
    {
      ReclaimSeenIs(list, now, keys, item);
      if item in list { KeyAmong(list, item); }
    }
    EvictIsMinimal(live, slice);
    assert live[..|live|] == live;
  }

  lemma KeyAmong(list: seq<Item>, item: Item)
    requires item in list
    ensures item.key in set i | 0 <= i < |list| :: list[i].key
  {
    var i :| 0 <= i < |list| && list[i] == item;
  }

  /** The sums move by the difference one shard makes. */
  lemma Difference(shards: seq<seq<Item>>, i: nat, after: seq<Item>)
    requires i < |shards|
    ensures Sum(Lengths(shards[i := after])) == Sum(Lengths(shards)) + |after| - |shards[i]|
    ensures Sum(Charges(shards[i := after])) == Sum(Charges(shards)) + Total(after) - Total(shards[i])
  {
    hide Total, Sum;
    SumUpdate(Lengths(shards), i, |after|);
    SumUpdate(Charges(shards), i, Total(after));
    assert Lengths(shards[i := after]) == Lengths(shards)[i := |after|];
    assert Charges(shards[i := after]) == Charges(shards)[i := Total(after)];
  }
}
