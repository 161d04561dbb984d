/** What "least recently used" means over a whole run, and that eviction goes by it. */
module LeastRecent {
  import opened Base
  import opened Recency
  import opened Accounting

  predicate Uses(a: Action, k: Key) { (a.SetEntry? && a.item.key == k) || (a.Get? && a.key == k) }

  /** When `k` was last set or asked for; a key not used since the start ranks below every
      used one, by where the shard then had it. */
  function LastUse(start: seq<Item>, actions: seq<Action>, k: Key): int
    decreases |actions|
  {
    if actions == [] then -1 - LastOf(start, k)
    else if Uses(actions[|actions| - 1], k) then |actions| - 1
    else LastUse(start, actions[..|actions| - 1], k)
  }

  /** The shard after these operations. */
  function Held(start: seq<Item>, actions: seq<Action>, slice: nat): seq<Item>
    decreases |actions|
  {
    if actions == [] then start
    else After(Held(start, actions[..|actions| - 1], slice), actions[|actions| - 1], slice)
  }

  /** Most recently used first. */
  predicate Ranked(list: seq<Item>, start: seq<Item>, actions: seq<Action>) {
    forall i, j :: 0 <= i < j < |list| ==> LastUse(start, actions, list[i].key) > LastUse(start, actions, list[j].key)
  }

  lemma {:induction false} LastUseBound(start: seq<Item>, actions: seq<Action>, k: Key)
    ensures LastUse(start, actions, k) < |actions|
    decreases |actions|
  {
    if actions != [] { LastUseBound(start, actions[..|actions| - 1], k); }
  }

  /** An operation that uses none of the entries leaves them ranked as they were. */
  lemma Unused(list: seq<Item>, start: seq<Item>, actions: seq<Action>, a: Action)
    requires Ranked(list, start, actions) && forall j :: 0 <= j < |list| ==> !Uses(a, list[j].key)
    ensures Ranked(list, start, actions + [a])
    ensures forall j :: 0 <= j < |list| ==> LastUse(start, actions + [a], list[j].key) == LastUse(start, actions, list[j].key)
  {
    hide Uses;
    assert (actions + [a])[..|actions|] == actions;
  }

  /** The used entry, in front of the others. */
  lemma UsedFront(item: Item, rest: seq<Item>, start: seq<Item>, actions: seq<Action>, a: Action)
    requires Uses(a, item.key) && Ranked(rest, start, actions) && forall j :: 0 <= j < |rest| ==> !Uses(a, rest[j].key)
    ensures Ranked([item] + rest, start, actions + [a])
  {
    hide Uses, LastUse;
    Unused(rest, start, actions, a);
    assert LastUse(start, actions + [a], item.key) == |actions| by { UsedNow(start, actions, a, item.key); }
    var all := [item] + rest;
    forall i, j | 0 <= i < j < |all|
      ensures LastUse(start, actions + [a], all[i].key) > LastUse(start, actions + [a], all[j].key)
    {
      assert all[j] == rest[j - 1];
      LastUseBound(start, actions, rest[j - 1].key);
      if i > 0 { assert all[i] == rest[i - 1]; }
    }
  }

  lemma UsedNow(start: seq<Item>, actions: seq<Action>, a: Action, k: Key)
    requires Uses(a, k)
    ensures LastUse(start, actions + [a], k) == |actions|
  {
  }

  // ----- taking entries out keeps the ranking -----

  lemma RankedDistinct(list: seq<Item>, start: seq<Item>, actions: seq<Action>)
    requires Ranked(list, start, actions)
    ensures Distinct(list)
  {
  }

  lemma RankedDrop(list: seq<Item>, start: seq<Item>, actions: seq<Action>, i: nat)
    requires Ranked(list, start, actions) && i < |list|
    ensures
      var rest := list[..i] + list[i + 1..];
      Ranked(rest, start, actions) && forall j :: 0 <= j < |rest| ==> rest[j].key != list[i].key
  {
    hide LastUse;
    RankedDistinct(list, start, actions);
    var rest := list[..i] + list[i + 1..];
    assert forall j :: 0 <= j < |rest| ==> rest[j] == list[if j < i then j else j + 1];
  }

  lemma RankedWithout(list: seq<Item>, start: seq<Item>, actions: seq<Action>, k: Key)
    requires Ranked(list, start, actions)
    ensures
      var rest := Without(list, k);
      Ranked(rest, start, actions) && forall j :: 0 <= j < |rest| ==> rest[j].key != k
  {
    hide Without, LastUse;
    RankedDistinct(list, start, actions);
    var i := Position(list, k);
    if i < |list| {
      WithoutIsDrop(list, i);
      RankedDrop(list, start, actions, i);
    } else {
      WithoutAbsent(list, k);
    }
  }

  lemma {:induction false} RankedSweep(list: seq<Item>, start: seq<Item>, actions: seq<Action>, now: int, seen: set<Key>)
    requires Ranked(list, start, actions)
    ensures Ranked(ReclaimSeen(list, now, seen), start, actions)
    decreases |list|
  {
    hide LastUse;
    if list != [] {
      var n := |list| - 1;
      RankedSweep(list[..n], start, actions, now, seen);
      var before := ReclaimSeen(list[..n], now, seen);
      forall j | 0 <= j < |before|
        ensures LastUse(start, actions, before[j].key) > LastUse(start, actions, list[n].key)
      {
        var i := ReclaimSeenAt(list[..n], now, seen, j);
      }
    }
  }

  // ----- every operation keeps it -----

  lemma RankedSet(list: seq<Item>, start: seq<Item>, actions: seq<Action>, item: Item, now: int, slice: nat)
    requires Ranked(list, start, actions)
    ensures Ranked(ApplySet(list, item, now, slice), start, actions + [SetEntry(item, now)])
    ensures Ranked(Put(list, item), start, actions + [SetEntry(item, now)])
  {
    hide LastUse, Without, Evict;
    var a := SetEntry(item, now);
    RankedWithout(list, start, actions, item.key);
    Unused(Without(list, item.key), start, actions, a);
    UsedFront(item, Without(list, item.key), start, actions, a);
    EvictIsMinimal(Put(list, item), slice);
  }

  lemma RankedGet(list: seq<Item>, start: seq<Item>, actions: seq<Action>, key: Key, now: int)
    requires Ranked(list, start, actions)
    ensures Ranked(AfterGet(list, key, now), start, actions + [Get(key, now)])
  {
    hide LastUse, Without, AfterGet, GetValue;
    var a := Get(key, now);
    RankedDistinct(list, start, actions);
    var i := Position(list, key);
    if i < |list| {
      GetFound(list, i, now);
      RankedDrop(list, start, actions, i);
      var rest := list[..i] + list[i + 1..];
      if Expired(list[i], now) {
        Unused(rest, start, actions, a);
      } else {
        UsedFront(list[i], rest, start, actions, a);
        assert [list[i]] + list[..i] + list[i + 1..] == [list[i]] + rest;
      }
    } else {
      NoValue(list, key, now);
      Unused(list, start, actions, a);
    }
  }

  lemma RankedAfter(list: seq<Item>, start: seq<Item>, actions: seq<Action>, a: Action, slice: nat)
    requires Ranked(list, start, actions)
    ensures Ranked(After(list, a, slice), start, actions + [a])
  {
    hide LastUse, Without, AfterGet, ApplySet, ReclaimSeen, Ranked;
    match a
    case SetEntry(item, now) => RankedSet(list, start, actions, item, now, slice);
    case Get(key, now) => RankedGet(list, start, actions, key, now);
    case DeleteKey(key) =>
      RankedWithout(list, start, actions, key);
      Unused(Without(list, key), start, actions, a);
    case Sweep(_, now, sample) =>
      RankedSweep(list, start, actions, now, sample);
      Unused(ReclaimSeen(list, now, sample), start, actions, a);
  }

  /** Whatever was done to a shard, its entries stand in the order of their last use. */
  lemma {:induction false} HeldByLastUse(start: seq<Item>, actions: seq<Action>, slice: nat)
    requires Distinct(start)
    ensures Ranked(Held(start, actions, slice), start, actions)
    decreases |actions|
  {
    hide After;
    if actions == [] {
      forall i | 0 <= i < |start|
        ensures LastUse(start, actions, start[i].key) == -1 - i
      {
        OneValue(start, i, 0);
      }
    } else {
      var n := |actions| - 1;
      HeldByLastUse(start, actions[..n], slice);
      RankedAfter(Held(start, actions[..n], slice), start, actions[..n], actions[n], slice);
      assert actions == actions[..n] + [actions[n]];
    }
  }

  /** Eviction takes the least recently used: after a set, whichever entry had to go was
      last used before every entry that stayed. */
  lemma EvictsLeastRecent(start: seq<Item>, actions: seq<Action>, item: Item, now: int, slice: nat, gone: nat, stayed: nat)
    requires Distinct(start) && !Expired(item, now)
    requires
      var before, after := Held(start, actions, slice), Held(start, actions + [SetEntry(item, now)], slice);
      && gone < |before| && before[gone].key != item.key && stayed < |after|
      && forall j :: 0 <= j < |after| ==> after[j].key != before[gone].key
    ensures
      var before, after := Held(start, actions, slice), Held(start, actions + [SetEntry(item, now)], slice);
      var all := actions + [SetEntry(item, now)];
      LastUse(start, all, before[gone].key) < LastUse(start, all, after[stayed].key)
  {
    hide LastUse, Without, Evict;
    var a := SetEntry(item, now);
    var before := Held(start, actions, slice);
    assert (actions + [a])[..|actions|] == actions;
    HeldByLastUse(start, actions, slice);
    RankedSet(before, start, actions, item, now, slice);
    RankedDistinct(before, start, actions);
    var put := Put(before, item);
    EvictIsMinimal(put, slice);
    var at := KeptByPut(before, item, gone);
    assert at >= |Evict(put, slice)|;
  }

  lemma KeptByPut(before: seq<Item>, item: Item, i: nat) returns (at: nat)
    requires Distinct(before) && i < |before| && before[i].key != item.key
    ensures at < |Put(before, item)| && Put(before, item)[at] == before[i]
  {
    hide Without;
    var k := Position(before, item.key);
    if k < |before| {
      WithoutIsDrop(before, k);
      at := if i < k then i + 1 else i;
    } else {
      WithoutAbsent(before, item.key);
      at := i + 1;
    }
  }
}
