/** One shard: a map, a doubly linked recency list through the entries, and the
    bytes they are charged for. */
module Shard {
  import opened Base
  import opened Recency
  import opened Recovery
  import opened Replay
  import SC = SnapshotCodec

  /** The source's `entry`: a key, what it holds, and its links. */
  class Node {
    const key: Key
    var entry: Entry
    var previous: Node?
    var next: Node?

    constructor (key: Key, entry: Entry)
      ensures this.key == key && this.entry == entry && previous == null && next == null
    {
      this.key, this.entry, previous, next := key, entry, null, null;
    }

    function ToItem(): Item
      reads this`entry
    {
      SC.Item(key, entry)
    }
  }

  function Items(nodes: seq<Node>): (r: seq<Item>)
    reads nodes`entry
    ensures |r| == |nodes| && forall i :: 0 <= i < |nodes| ==> r[i] == nodes[i].ToItem()
  {
    if nodes == [] then [] else Items(nodes[..|nodes| - 1]) + [nodes[|nodes| - 1].ToItem()]
  }

  predicate NoRepeats(nodes: seq<Node>) { forall i, j :: 0 <= i < j < |nodes| ==> nodes[i] != nodes[j] }

  function CutOut(nodes: seq<Node>, i: nat): (r: seq<Node>)
    requires i < |nodes|
    ensures |r| == |nodes| - 1 && forall j :: 0 <= j < |r| ==> r[j] == nodes[if j < i then j else j + 1]
  {
    nodes[..i] + nodes[i + 1..]
  }

  lemma CutOutAt(nodes: seq<Node>, i: nat)
    requires i < |nodes| && NoRepeats(nodes)
    ensures NoRepeats(CutOut(nodes, i)) && nodes[i] !in CutOut(nodes, i)
  {
  }

  /** The map holds exactly the listed entries. */
  predicate IndexOk(nodes: seq<Node>, entries: map<Key, Node>) {
    && NoRepeats(nodes)
    && (forall i :: 0 <= i < |nodes| ==> nodes[i].key in entries && entries[nodes[i].key] == nodes[i])
    && (forall k :: k in entries ==> entries[k] in nodes && entries[k].key == k)
  }

  lemma IndexCutOut(nodes: seq<Node>, entries: map<Key, Node>, i: nat)
    requires IndexOk(nodes, entries) && i < |nodes|
    ensures IndexOk(CutOut(nodes, i), entries - {nodes[i].key})
  {
    CutOutAt(nodes, i);
    var rest, left := CutOut(nodes, i), entries - {nodes[i].key};
    forall k | k in left
      ensures left[k] in rest && left[k].key == k
    {
      var j :| 0 <= j < |nodes| && nodes[j] == entries[k];
      assert rest[if j < i then j else j - 1] == nodes[j];
    }
  }

  lemma MovedAt(nodes: seq<Node>, i: nat)
    requires i < |nodes| && NoRepeats(nodes)
    ensures NoRepeats([nodes[i]] + CutOut(nodes, i))
  {
    CutOutAt(nodes, i);
  }

  lemma IndexPromote(nodes: seq<Node>, entries: map<Key, Node>, i: nat)
    requires IndexOk(nodes, entries) && i < |nodes|
    ensures IndexOk([nodes[i]] + CutOut(nodes, i), entries)
  {
    hide CutOut;
    CutOutAt(nodes, i);
    var moved := [nodes[i]] + CutOut(nodes, i);
    MovedAt(nodes, i);
    forall k | k in entries
      ensures entries[k] in moved && entries[k].key == k
    {
      var j :| 0 <= j < |nodes| && nodes[j] == entries[k];
      assert moved[if j == i then 0 else if j < i then j + 1 else j] == nodes[j];
    }
  }

  lemma IndexPush(nodes: seq<Node>, entries: map<Key, Node>, node: Node)
    requires IndexOk(nodes, entries) && node.key !in entries
    ensures node !in nodes && IndexOk([node] + nodes, entries[node.key := node])
  {
    var pushed, more := [node] + nodes, entries[node.key := node];
    forall k | k in more
      ensures more[k] in pushed && more[k].key == k
    {
      if k != node.key {
        var j :| 0 <= j < |nodes| && nodes[j] == entries[k];
        assert pushed[j + 1] == nodes[j];
      } else {
        assert pushed[0] == node;
      }
    }
  }

  lemma DistinctItems(nodes: seq<Node>, entries: map<Key, Node>)
    requires IndexOk(nodes, entries)
    ensures Distinct(Items(nodes))
  {
  }

  lemma ItemsCutOut(nodes: seq<Node>, i: nat)
    requires i < |nodes|
    ensures Items(CutOut(nodes, i)) == Drop(Items(nodes), i)
  {
    hide Items, CutOut;
    var a, b := Items(CutOut(nodes, i)), Drop(Items(nodes), i);
    forall j | 0 <= j < |a|
      ensures a[j] == b[j]
    {
      assert CutOut(nodes, i)[j] == nodes[if j < i then j else j + 1];
    }
  }

  lemma ItemsPush(node: Node, nodes: seq<Node>)
    ensures Items([node] + nodes) == [node.ToItem()] + Items(nodes)
  {
    hide Items;
    assert forall j :: 0 < j <= |nodes| ==> ([node] + nodes)[j] == nodes[j - 1];
  }

  lemma ItemsMoved(nodes: seq<Node>, current: Node, i: nat)
    requires i <= |nodes| && (i < |nodes| ==> nodes[i] == current)
    ensures Items([current] + if i < |nodes| then CutOut(nodes, i) else nodes)
         == [current.ToItem()] + if i < |nodes| then Drop(Items(nodes), i) else Items(nodes)
  {
    hide Items, Drop, CutOut;
    if i < |nodes| {
      ItemsCutOut(nodes, i);
      ItemsPush(current, CutOut(nodes, i));
    } else {
      ItemsPush(current, nodes);
    }
  }

  /** The store's totals, shared by its shards. */
  class Counters {
    var entries: int
    var bytes: int
    var expiries: nat
    var generation: nat

    constructor ()
      ensures entries == 0 && bytes == 0 && expiries == 0 && generation == 0
    {
      entries, bytes, expiries, generation := 0, 0, 0, 0;
    }
  }

  /** `removalKind`. */
  datatype Removal = Deletion | Expiry | Eviction

  const SWEEP_SAMPLE_SIZE: nat := 20
  const SWEEP_REPEAT_DIVISOR: nat := 4

  class Shard {
    var entries: map<Key, Node>
    var recent: Node?
    var oldest: Node?
    var bytes: nat
    const capacity: nat
    const store: Counters
    ghost var nodes: seq<Node>   // the list, most recent first

    /** The links spell out `nodes` in both directions. */
    ghost predicate Linked()
      reads this`recent, this`oldest, this`nodes, nodes`previous, nodes`next
    {
      && NoRepeats(nodes)
      && recent == (if nodes == [] then null else nodes[0])
      && oldest == (if nodes == [] then null else nodes[|nodes| - 1])
      && (forall i {:trigger nodes[i].previous} :: 0 <= i < |nodes| ==> nodes[i].previous == (if i == 0 then null else nodes[i - 1]))
      && (forall i {:trigger nodes[i].next} :: 0 <= i < |nodes| ==> nodes[i].next == (if i == |nodes| - 1 then null else nodes[i + 1]))
    }

    /** The abstract value: entries, most recent first. */
    ghost function Contents(): seq<Item>
      reads this`nodes, nodes`entry
    {
      Items(nodes)
    }

    ghost predicate Valid()
      reads this, nodes
    {
      Linked() && IndexOk(nodes, entries) && bytes == Total(Contents())
    }

    /** What the counters count. */
    lemma Counted()
      requires Valid()
      ensures bytes == Total(Contents()) && |nodes| == |Contents()| && Distinct(Contents())
      ensures bytes == 72 * |nodes| + KeyBytes(Contents()) + ValueBytes(Contents())
    {
      hide Total, Linked, KeyBytes, ValueBytes;
      TotalIsBytes(Contents());
      DistinctItems(nodes, entries);
    }

    constructor (capacity: nat, store: Counters)
      ensures Valid() && nodes == [] && entries == map[] && Contents() == []
      ensures this.capacity == capacity && this.store == store
    {
      entries, recent, oldest, bytes, nodes := map[], null, null, 0, [];
      this.capacity, this.store := capacity, store;
    }

    // ----- links -----

    /** Take an entry out of the middle or the end of the list. */
    method Unlink(current: Node, ghost i: nat)
      requires Linked() && 0 < i < |nodes| && nodes[i] == current
      modifies this`oldest, this`nodes, nodes`previous, nodes`next
      ensures Linked() && nodes == CutOut(old(nodes), i)
    {
      ghost var before := nodes;
      assert current.previous == before[i - 1];
      current.previous.next := current.next;
      if current.next != null {
        current.next.previous := current.previous;
      } else {
        oldest := current.previous;
      }
      nodes := CutOut(before, i);
      CutOutAt(before, i);
    }

    /** Take the first entry off the list. */
    method PopFront(current: Node)
      requires Linked() && |nodes| > 0 && nodes[0] == current
      modifies this`recent, this`oldest, this`nodes, nodes`previous
      ensures Linked() && nodes == CutOut(old(nodes), 0)
    {
      recent := current.next;
      if current.next != null {
        current.next.previous := current.previous;
      } else {
        oldest := current.previous;
      }
      ghost var before := nodes;
      nodes := CutOut(nodes, 0);
      CutOutAt(before, 0);
    }

    /** Put an entry that is not in the list in front of it. */
    method PushFront(current: Node)
      requires Linked() && current !in nodes
      modifies this`recent, this`oldest, this`nodes, nodes`previous, current`previous, current`next
      ensures Linked() && nodes == [current] + old(nodes)
    {
      current.previous := null;
      current.next := recent;
      if recent != null {
        recent.previous := current;
      } else {
        oldest := current;
      }
      recent := current;
      nodes := [current] + nodes;
    }

    /** The unlinking half of `removeEntryLocked`. */
    method Detach(current: Node, ghost i: nat)
      requires Linked() && i < |nodes| && nodes[i] == current
      modifies this`recent, this`oldest, this`nodes, nodes`previous, nodes`next
      ensures Linked() && nodes == CutOut(old(nodes), i) && Contents() == Drop(old(Contents()), i)
    {
      hide Items, Drop;
      ItemsCutOut(nodes, i);
      if current.previous != null {
        Unlink(current, i);
      } else {
        PopFront(current);
      }
    }

    /** The relinking of `markRecentLocked`. */
    method MoveToFront(current: Node, ghost i: nat)
      requires Linked()
      requires i <= |nodes| && if i < |nodes| then nodes[i] == current else current !in nodes && current.previous == null && current.next == null
      modifies this`recent, this`oldest, this`nodes, nodes`previous, nodes`next, current`previous, current`next
      ensures Linked()
      ensures nodes == [current] + if i < old(|nodes|) then CutOut(old(nodes), i) else old(nodes)
    {
      if recent == current {
        assert nodes[0] in nodes;
        assert nodes == [current] + CutOut(nodes, 0);
        return;
      }
      if current.previous != null {
        CutOutAt(nodes, i);
        Unlink(current, i);
      }
      PushFront(current);
    }

    /** `markRecentLocked`, on an entry of the list or a new one. */
    method MarkRecent(current: Node, ghost i: nat)
      requires Linked()
      requires i <= |nodes| && if i < |nodes| then nodes[i] == current else current !in nodes && current.previous == null && current.next == null
      modifies this`recent, this`oldest, this`nodes, nodes`previous, nodes`next, current`previous, current`next
      ensures Linked()
      ensures nodes == [current] + if i < old(|nodes|) then CutOut(old(nodes), i) else old(nodes)
      ensures Contents() == [current.ToItem()] + if i < old(|nodes|) then Drop(old(Contents()), i) else old(Contents())
    {
      hide Items, Drop, Linked, CutOut;
      ghost var target := [current] + if i < |nodes| then CutOut(nodes, i) else nodes;
      ItemsMoved(nodes, current, i);
      MoveToFront(current, i);
      assert nodes == target;
    }

    // ----- entries and charges -----

    /** The bookkeeping of a removal. The charge never exceeds what is recorded. */
    method Discharge(key: Key, size: nat, kind: Removal)
      requires Linked() && size <= bytes
      modifies this`entries, this`bytes, store
      ensures Linked() && Contents() == old(Contents()) && entries == old(entries) - {key} && bytes == old(bytes) - size
      ensures store.entries == old(store.entries) - 1 && store.bytes == old(store.bytes) - size
      ensures store.generation == old(store.generation) + (if kind.Eviction? then 1 else 0)
      ensures store.expiries == old(store.expiries) + (if kind.Expiry? then 1 else 0)
    {
      hide Linked;
      entries := entries - {key};
      bytes := bytes - size;
      store.entries := store.entries - 1;
      store.bytes := store.bytes - size;
      match kind
      case Deletion =>
      case Expiry => store.expiries := store.expiries + 1;
      case Eviction => store.generation := store.generation + 1;
    }

    /** `removeEntryLocked`. Only an eviction moves the eviction generation. */
    method RemoveEntry(current: Node, kind: Removal, ghost i: nat)
      requires Valid() && i < |nodes| && nodes[i] == current
      modifies this`recent, this`oldest, this`nodes, this`entries, this`bytes, nodes`previous, nodes`next, store
      ensures Valid() && nodes == CutOut(old(nodes), i) && Contents() == Drop(old(Contents()), i)
      ensures entries == old(entries) - {current.key}
      ensures store.bytes - bytes == old(store.bytes - bytes) && store.entries - |nodes| == old(store.entries - |nodes|)
      ensures store.generation == old(store.generation) + (if kind.Eviction? then 1 else 0)
      ensures store.expiries == old(store.expiries) + (if kind.Expiry? then 1 else 0)
    {
      hide Total, Items, Drop, Linked, IndexOk;
      TotalDrop(Contents(), i);
      IndexCutOut(nodes, entries, i);
      Detach(current, i);
      Discharge(current.key, Charge(current.ToItem()), kind);
    }

    /** New contents for an entry, and the difference in its charge. */
    method Rewrite(current: Node, entry: Entry, ghost i: nat)
      requires Linked() && i < |nodes| && nodes[i] == current && Charge(current.ToItem()) <= bytes
      modifies current`entry, this`bytes, store
      ensures Linked() && current.entry == entry
      ensures Contents() == old(Contents())[i := SC.Item(current.key, entry)]
      ensures bytes == old(bytes) - Charge(old(Contents())[i]) + Charge(SC.Item(current.key, entry))
      ensures store.bytes - bytes == old(store.bytes - bytes) && store.entries == old(store.entries)
      ensures store.generation == old(store.generation) && store.expiries == old(store.expiries)
    {
      hide Items;
      ghost var before := Contents();
      var oldSize := Charge(current.ToItem());
      current.entry := entry;
      var newSize := Charge(current.ToItem());
      bytes := bytes - oldSize + newSize;
      store.bytes := store.bytes + newSize - oldSize;
      assert forall j :: 0 <= j < |nodes| && j != i ==> nodes[j].ToItem() == before[j];
      assert Items(nodes) == before[i := SC.Item(current.key, entry)];
    }

    /** `setEntryLocked` on a key the shard holds. */
    method ReplaceEntry(current: Node, entry: Entry, ghost i: nat)
      requires Valid() && i < |nodes| && nodes[i] == current
      modifies this`recent, this`oldest, this`nodes, this`bytes, nodes`previous, nodes`next, current`entry, store
      ensures Valid() && nodes == [current] + CutOut(old(nodes), i)
      ensures Contents() == Put(old(Contents()), SC.Item(current.key, entry))
      ensures store.bytes - bytes == old(store.bytes - bytes) && store.entries - |nodes| == old(store.entries - |nodes|)
      ensures store.generation == old(store.generation) && store.expiries == old(store.expiries)
    {
      hide Total, Items, IndexOk, Linked, Charge, CutOut, Put, Drop, Distinct;
      ReplaceIsPut(Contents(), i, SC.Item(current.key, entry)) by { DistinctItems(nodes, entries); }
      ChargedAtLeast(Contents(), i);
      IndexPromote(nodes, entries, i);
      Rewrite(current, entry, i);
      MarkRecent(current, i);
    }

    /** The bookkeeping of a new entry. */
    method Admit(current: Node)
      requires Linked()
      modifies this`entries, this`bytes, store
      ensures Linked() && Contents() == old(Contents()) && entries == old(entries)[current.key := current]
      ensures bytes == old(bytes) + Charge(current.ToItem())
      ensures store.bytes - bytes == old(store.bytes - bytes) && store.entries == old(store.entries) + 1
      ensures store.generation == old(store.generation) && store.expiries == old(store.expiries)
    {
      hide Linked;
      entries := entries[current.key := current];
      var size := Charge(current.ToItem());
      bytes := bytes + size;
      store.entries := store.entries + 1;
      store.bytes := store.bytes + size;
    }

    /** `setEntryLocked` on a key the shard does not hold. */
    method InsertEntry(key: Key, entry: Entry) returns (current: Node)
      requires Valid() && key !in entries
      modifies this`recent, this`oldest, this`nodes, this`entries, this`bytes, nodes`previous, nodes`next, store
      ensures Valid() && fresh(current) && nodes == [current] + old(nodes) && current.key == key
      ensures entries == old(entries)[key := current]
      ensures Contents() == Put(old(Contents()), SC.Item(key, entry))
      ensures store.bytes - bytes == old(store.bytes - bytes) && store.entries - |nodes| == old(store.entries - |nodes|)
      ensures store.generation == old(store.generation) && store.expiries == old(store.expiries)
    {
      hide Total, Items, IndexOk, Linked, Charge, Without;
      ghost var before, item := Contents(), SC.Item(key, entry);
      AbsentItem(nodes, entries, key);
      WithoutAbsent(before, key);
      TotalAppend([item], before);
      TotalOne(item);
      current := new Node(key, entry);
      IndexPush(nodes, entries, current);
      assert Contents() == before;
      Admit(current);
      MarkRecent(current, |nodes|);
    }

    /** `setEntryLocked`. */
    method SetEntry(key: Key, entry: Entry) returns (current: Node)
      requires Valid()
      modifies this`recent, this`oldest, this`nodes, this`entries, this`bytes, nodes, store
      ensures Valid() && |nodes| > 0 && nodes[0] == current && forall j :: 0 <= j < |nodes| ==> nodes[j] in old(nodes) || fresh(nodes[j])
      ensures Contents() == Put(old(Contents()), SC.Item(key, entry)) && entries.Keys == old(entries).Keys + {key}
      ensures store.bytes - bytes == old(store.bytes - bytes) && store.entries - |nodes| == old(store.entries - |nodes|)
      ensures store.generation == old(store.generation) && store.expiries == old(store.expiries)
    {
      hide Total, Items, Linked, Put, IndexOk;
      if key in entries {
        current := entries[key];
        ghost var i := ItemOfKey(nodes, entries, key);
        ReplaceEntry(current, entry, i);
        assert forall j :: 0 <= j < |nodes| ==> nodes[j] in old(nodes);
      } else {
        current := InsertEntry(key, entry);
      }
    }

    /** Remove the least recent entry: an eviction if it is still live. */
    method RemoveOldest(now: int)
      requires Valid() && |nodes| > 0
      modifies this`recent, this`oldest, this`nodes, this`entries, this`bytes, nodes`previous, nodes`next, store
      ensures Valid() && nodes == old(nodes)[..old(|nodes|) - 1] && Contents() == old(Contents())[..old(|nodes|) - 1]
      ensures entries.Keys <= old(entries).Keys
      ensures store.bytes - bytes == old(store.bytes - bytes) && store.entries - |nodes| == old(store.entries - |nodes|)
      ensures store.generation == old(store.generation) + (if Expired(old(Contents())[old(|nodes|) - 1], now) then 0 else 1)
    {
      hide Items, IndexOk, Total;
      ghost var last := |nodes| - 1;
      var kind := if DeadlinePassed(oldest.entry.deadline, now) then Expiry else Eviction;
      assert Drop(Contents(), last) == Contents()[..last];
      assert CutOut(nodes, last) == nodes[..last];
      RemoveEntry(oldest, kind, last);
    }

    /** `evictToCapacityLocked`: terminates, and never reaches past the end of the list.
        The generation moves by the number of live entries lost. */
    method EvictToCapacity(now: int)
      requires Valid()
      modifies this`recent, this`oldest, this`nodes, this`entries, this`bytes, nodes`previous, nodes`next, store
      ensures Valid() && Contents() == Evict(old(Contents()), capacity)
      ensures nodes <= old(nodes) && bytes <= capacity && entries.Keys <= old(entries).Keys
      ensures store.generation == old(store.generation) + CountLive(old(Contents())[|nodes|..], now)
      ensures store.bytes - bytes == old(store.bytes - bytes) && store.entries - |nodes| == old(store.entries - |nodes|)
    {
      hide Items, IndexOk, Linked, Total, Evict, CountLive;
      ghost var start, count, all := Contents(), store.generation, nodes;
      EvictStart(start, now);
      while bytes > capacity
        invariant Valid() && |nodes| <= |all| && nodes == all[..|nodes|] && entries.Keys <= old(entries).Keys
        invariant Contents() == start[..|nodes|]
        invariant Evict(Contents(), capacity) == Evict(start, capacity)
        invariant store.generation == count + CountLive(start[|nodes|..], now)
        invariant store.bytes - bytes == old(store.bytes - bytes) && store.entries - |nodes| == old(store.entries - |nodes|)
        decreases |nodes|
      {
        EvictOne(start, |nodes|, capacity, now);
        RemoveOldest(now);
      }
      EvictNothing(Contents(), capacity);
    }

    /** Remove the entry of a key the shard holds. */
    method RemoveKey(key: Key, kind: Removal)
      requires Valid() && key in entries
      modifies this`recent, this`oldest, this`nodes, this`entries, this`bytes, nodes`previous, nodes`next, store
      ensures Valid() && Contents() == Without(old(Contents()), key) && entries == old(entries) - {key}
      ensures |nodes| == old(|nodes|) - 1 && forall j :: 0 <= j < |nodes| ==> nodes[j] in old(nodes)
      ensures store.bytes - bytes == old(store.bytes - bytes) && store.entries - |nodes| == old(store.entries - |nodes|)
      ensures store.generation == old(store.generation) + (if kind.Eviction? then 1 else 0)
    {
      hide Items, Linked, Without, Total;
      DistinctItems(nodes, entries);
      ghost var i :| 0 <= i < |nodes| && nodes[i] == entries[key];
      WithoutIsDrop(Contents(), i);
      IndexCutOut(nodes, entries, i);
      RemoveEntry(entries[key], kind, i);
    }

    // ----- operations -----

    /** `applySet`: put the entry, drop it if it is dead on arrival, otherwise make room. */
    method ApplySet(key: Key, entry: Entry, now: int)
      requires Valid()
      modifies this`recent, this`oldest, this`nodes, this`entries, this`bytes, nodes, store
      ensures Valid() && Contents() == Recency.ApplySet(old(Contents()), SC.Item(key, entry), now, capacity)
      ensures entries.Keys <= old(entries).Keys + {key}
      ensures forall j :: 0 <= j < |nodes| ==> nodes[j] in old(nodes) || fresh(nodes[j])
      ensures store.bytes - bytes == old(store.bytes - bytes) && store.entries - |nodes| == old(store.entries - |nodes|)
      ensures store.generation == old(store.generation) + Evicted(old(Contents()), SC.Item(key, entry), now, capacity)
    {
      hide Items, Linked, IndexOk, Without, Total, CountLive;
      ghost var before, item := Contents(), SC.Item(key, entry);
      PutThenDrop(before, item) by { DistinctItems(nodes, entries); }
      var current := SetEntry(key, entry);
      if DeadlinePassed(entry.deadline, now) {
        RemoveEntry(current, Expiry, 0);
      } else {
        EvictNothing(Put(before, item), capacity);
        EvictStart(Put(before, item), now);
        if bytes > capacity {
          EvictToCapacity(now);
        }
      }
    }

    /** `applyDelete`: deleting an absent key succeeds and changes nothing. */
    method ApplyDelete(key: Key)
      requires Valid()
      modifies this`recent, this`oldest, this`nodes, this`entries, this`bytes, nodes`previous, nodes`next, store
      ensures Valid() && Contents() == Without(old(Contents()), key) && store.generation == old(store.generation)
      ensures entries.Keys <= old(entries).Keys
      ensures forall j :: 0 <= j < |nodes| ==> nodes[j] in old(nodes)
      ensures store.bytes - bytes == old(store.bytes - bytes) && store.entries - |nodes| == old(store.entries - |nodes|)
    {
      hide Items, Linked, Without, Total, IndexOk;
      if key in entries {
        RemoveKey(key, Deletion);
      } else {
        AbsentItem(nodes, entries, key);
        WithoutAbsent(Contents(), key);
      }
    }

    /** `getInto`: a live entry is returned and becomes the most recent one; an
        expired one is removed, never returned. */
    method Get(key: Key, now: int) returns (value: Option<Bytes>)
      requires Valid()
      modifies this`recent, this`oldest, this`nodes, this`entries, this`bytes, nodes`previous, nodes`next, store
      ensures Valid() && store.generation == old(store.generation)
      ensures Contents() == AfterGet(old(Contents()), key, now) && entries.Keys <= old(entries).Keys
      ensures forall j :: 0 <= j < |nodes| ==> nodes[j] in old(nodes)
      ensures value == GetValue(old(Contents()), key, now)
      ensures store.bytes - bytes == old(store.bytes - bytes) && store.entries - |nodes| == old(store.entries - |nodes|)
    {
      hide Items, Linked, Without, Total, GetValue, AfterGet, Drop, IndexOk, CutOut;
      if key !in entries {
        AbsentItem(nodes, entries, key);
        NoValue(Contents(), key, now);
        return None;
      }
      var found := entries[key];
      ghost var i := ItemOfKey(nodes, entries, key);
      GetIsPromotion(Contents(), i, now) by { DistinctItems(nodes, entries); }
      if DeadlinePassed(found.entry.deadline, now) {
        RemoveKey(key, Expiry);
        return None;
      }
      TotalDrop(Contents(), i);
      IndexPromote(nodes, entries, i);
      value := Some(found.entry.value);
      MarkRecent(found, i);
    }

    /** One entry of a sweep. */
    method Visit(key: Key, now: int, ghost start: seq<Item>, ghost seen: set<Key>) returns (reclaimed: bool)
      requires Valid() && key in entries && key !in seen && Distinct(start) && Contents() == ReclaimSeen(start, now, seen)
      modifies this`recent, this`oldest, this`nodes, this`entries, this`bytes, nodes`previous, nodes`next, store
      ensures Valid() && Contents() == ReclaimSeen(start, now, seen + {key}) && store.generation == old(store.generation)
      ensures old(entries).Keys - {key} <= entries.Keys <= old(entries).Keys && |nodes| == old(|nodes|) - (if reclaimed then 1 else 0)
      ensures forall j :: 0 <= j < |nodes| ==> nodes[j] in old(nodes)
      ensures store.bytes - bytes == old(store.bytes - bytes) && store.entries - |nodes| == old(store.entries - |nodes|)
    {
      hide Items, Linked, Without, Total, ReclaimSeen, IndexOk;
      ghost var i := ItemOfKey(nodes, entries, key);
      SweepStep(start, now, seen, Contents(), i);
      reclaimed := DeadlinePassed(entries[key].entry.deadline, now);
      if reclaimed {
        RemoveKey(key, Expiry);
      }
    }

    /** `reclaimExpiredLocked`, in whatever order the map is iterated. */
    method ReclaimExpired(now: int)
      requires Valid()
      modifies this`recent, this`oldest, this`nodes, this`entries, this`bytes, nodes`previous, nodes`next, store
      ensures Valid() && Contents() == Reclaim(old(Contents()), now) && store.generation == old(store.generation)
      ensures entries.Keys <= old(entries).Keys
      ensures forall j :: 0 <= j < |nodes| ==> nodes[j] in old(nodes)
      ensures store.bytes - bytes == old(store.bytes - bytes) && store.entries - |nodes| == old(store.entries - |nodes|)
    {
      hide Items, Linked, Without, Total, ReclaimSeen, Reclaim, IndexOk;
      var todo := entries.Keys;
      var seen: set<Key> := {};
      ghost var start := Contents();
      DistinctItems(nodes, entries);
      ReclaimNone(start, now);
      KeysListed(nodes, entries);
      while todo != {}
        invariant Valid() && Distinct(start)
        invariant Contents() == ReclaimSeen(start, now, seen)
        invariant forall k :: k in todo ==> k in entries && k !in seen
        invariant forall j :: 0 <= j < |start| ==> start[j].key in todo || start[j].key in seen
        invariant entries.Keys <= old(entries).Keys
        invariant forall j :: 0 <= j < |nodes| ==> nodes[j] in old(nodes)
        invariant store.generation == old(store.generation)
        invariant store.bytes - bytes == old(store.bytes - bytes) && store.entries - |nodes| == old(store.entries - |nodes|)
        decreases |todo|
      {
        var key :| key in todo;
        var _ := Visit(key, now, start, seen);
        todo, seen := todo - {key}, seen + {key};
      }
      ReclaimAll(start, now, seen);
    }

    /** One pass of `sweepShard` over a sample of the entries, in whatever order the map is
        iterated: as many as `limit` allows, or all there are. */
    method SweepPass(now: int, limit: nat) returns (sampled: nat, reclaimed: nat, ghost seen: set<Key>)
      requires Valid()
      modifies this`recent, this`oldest, this`nodes, this`entries, this`bytes, nodes`previous, nodes`next, store
      ensures Valid() && Contents() == ReclaimSeen(old(Contents()), now, seen) && store.generation == old(store.generation)
      ensures reclaimed <= sampled <= limit && |nodes| + reclaimed == old(|nodes|) && entries.Keys <= old(entries).Keys
      ensures seen <= old(entries).Keys && |seen| == sampled && (sampled == limit || seen == old(entries).Keys)
      ensures forall j :: 0 <= j < |nodes| ==> nodes[j] in old(nodes)
      ensures store.bytes - bytes == old(store.bytes - bytes) && store.entries - |nodes| == old(store.entries - |nodes|)
    {
      hide Items, Linked, Without, Total, ReclaimSeen, IndexOk, Sampling;
      var todo := entries.Keys;
      sampled, reclaimed, seen := 0, 0, {};
      ghost var start, all := Contents(), todo;
      StartSampling(all);
      DistinctItems(nodes, entries);
      ReclaimNone(start, now);
      while todo != {} && sampled < limit
        invariant Valid() && Distinct(start)
        invariant Contents() == ReclaimSeen(start, now, seen)
        invariant Sampling(all, todo, seen, entries.Keys) && |seen| == sampled
        invariant reclaimed <= sampled <= limit && |nodes| + reclaimed == old(|nodes|)
        invariant forall j :: 0 <= j < |nodes| ==> nodes[j] in old(nodes)
        invariant store.generation == old(store.generation)
        invariant store.bytes - bytes == old(store.bytes - bytes) && store.entries - |nodes| == old(store.entries - |nodes|)
        decreases |todo|
      {
        var key :| key in todo;
        SampledKey(all, todo, seen, entries.Keys, key);
        ghost var held := entries.Keys;
        var gone := Visit(key, now, start, seen);
        SampleOne(all, todo, seen, held, key, entries.Keys);
        todo, seen, sampled := todo - {key}, seen + {key}, sampled + 1;
        if gone { reclaimed := reclaimed + 1; }
      }
      Sampled(all, todo, seen, entries.Keys);
    }

    /** A pass, and whether `sweepShard` makes another: only after one that removed something. */
    method SweepOnce(now: int, allowed: nat, late: bool, ghost later: int) returns (again: bool, ghost pass: Pass)
      requires Valid()
      modifies this`recent, this`oldest, this`nodes, this`entries, this`bytes, nodes`previous, nodes`next, store
      ensures Valid() && Contents() == ReclaimSeen(old(Contents()), pass.now, pass.seen) && store.generation == old(store.generation)
      ensures PassOk(old(Contents()), pass, now, allowed) && again == !Ends(old(Contents()), pass, late)
      ensures again ==> |nodes| < old(|nodes|)
      ensures now <= later ==> Live(ToImage(Contents()), later) == Live(ToImage(old(Contents())), later)
      ensures entries.Keys <= old(entries).Keys && forall j :: 0 <= j < |nodes| ==> nodes[j] in old(nodes)
      ensures store.bytes - bytes == old(store.bytes - bytes) && store.entries - |nodes| == old(store.entries - |nodes|)
    {
      hide Items, Linked, Total, ReclaimSeen, IndexOk, Live, ToImage, KeysOf;
      ghost var before := Contents();
      DistinctItems(nodes, entries);
      KeysListed(nodes, entries);
      var limit := if allowed < SWEEP_SAMPLE_SIZE then allowed else SWEEP_SAMPLE_SIZE;
      var sampled, reclaimed, seen := SweepPass(now, limit);
      pass := Pass(now, seen);
      if now <= later { SweepIsInvisible(before, now, seen, later); }
      again := !(sampled == 0 || reclaimed * SWEEP_REPEAT_DIVISOR < sampled || late);
    }

    /** `sweepShard`: pass after pass while at least a quarter of the sample had
        expired. It ends even without its time budget, because every repeated pass
        has removed something, and no reader can tell that it ran. A shard whose first pass
        may see every entry is left with none that had expired. `clock`, `allowed` and
        `late` stand for the time: what a pass reads, how many entries it still lets it
        see, and whether the budget is spent afterwards. */
    method SweepShard(clock: nat -> int, allowed: nat -> nat, late: nat -> bool, ghost later: int) returns (ghost passes: seq<Pass>)
      requires Valid()
      modifies this`recent, this`oldest, this`nodes, this`entries, this`bytes, nodes`previous, nodes`next, store
      ensures Valid() && Contents() == Swept(old(Contents()), passes)
      ensures IsSweep(old(Contents()), passes, 0, clock, allowed, late)
      ensures old(|nodes|) <= 20 && old(|nodes|) <= allowed(0) ==> NoneExpired(Contents(), clock(0))
      ensures (forall n :: clock(n) <= later) ==> Live(ToImage(Contents()), later) == Live(ToImage(old(Contents())), later)
      ensures entries.Keys <= old(entries).Keys && store.generation == old(store.generation)
      ensures forall j :: 0 <= j < |nodes| ==> nodes[j] in old(nodes)
      ensures store.bytes - bytes == old(store.bytes - bytes) && store.entries - |nodes| == old(store.entries - |nodes|)
    {
      hide Items, Linked, Total, ReclaimSeen, IndexOk, Live, ToImage, GoesOn, IsSweep, PassOk, Ends, Swept, NoneExpired, KeysOf, Valid;
      passes := [];
      ghost var start := Contents();
      NoPassYet(start, clock, allowed, late);
      var count, again := 0, true;
      while again
        invariant Valid() && Contents() == Swept(start, passes) && |passes| == count
        invariant if again then GoesOn(start, passes, 0, clock, allowed, late) else IsSweep(start, passes, 0, clock, allowed, late)
        invariant (forall n :: clock(n) <= later) ==> Live(ToImage(Contents()), later) == Live(ToImage(start), later)
        invariant entries.Keys <= old(entries).Keys && store.generation == old(store.generation)
        invariant forall j :: 0 <= j < |nodes| ==> nodes[j] in old(nodes)
        invariant store.bytes - bytes == old(store.bytes - bytes) && store.entries - |nodes| == old(store.entries - |nodes|)
        decreases again, |nodes|
      {
        ghost var pass;
        again, pass := SweepOnce(clock(count), allowed(count), late(count), later);
        SweptNext(start, passes, pass);
        OnePassMore(start, passes, 0, pass, clock, allowed, late);
        passes, count := passes + [pass], count + 1;
      }
      if |start| <= 20 && |start| <= allowed(0) { SweepReclaims(start, passes, clock, allowed, late); }
    }
  }

  lemma NoPassYet(s: seq<Item>, clock: nat -> int, allowed: nat -> nat, late: nat -> bool)
    ensures GoesOn(s, [], 0, clock, allowed, late) && Swept(s, []) == s
  {
  }

  /** The keys looked at, the keys to look at, and the keys still held. */
  ghost predicate Sampling(all: set<Key>, todo: set<Key>, seen: set<Key>, held: set<Key>) {
    seen + todo == all && seen !! todo && todo <= held <= all
  }

  lemma StartSampling(all: set<Key>)
    ensures Sampling(all, all, {}, all)
  {
  }

  lemma SampledKey(all: set<Key>, todo: set<Key>, seen: set<Key>, held: set<Key>, key: Key)
    requires Sampling(all, todo, seen, held) && key in todo
    ensures key in held && key !in seen
  {
  }

  lemma SampleOne(all: set<Key>, todo: set<Key>, seen: set<Key>, held: set<Key>, key: Key, left: set<Key>)
    requires Sampling(all, todo, seen, held) && key in todo && held - {key} <= left <= held
    ensures Sampling(all, todo - {key}, seen + {key}, left) && |seen + {key}| == |seen| + 1
  {
  }

  lemma Sampled(all: set<Key>, todo: set<Key>, seen: set<Key>, held: set<Key>)
    requires Sampling(all, todo, seen, held)
    ensures seen <= all && held <= all && (todo == {} ==> seen == all)
  {
  }

  lemma ItemOfKey(nodes: seq<Node>, entries: map<Key, Node>, key: Key) returns (i: nat)
    requires IndexOk(nodes, entries) && key in entries
    ensures i < |nodes| && nodes[i] == entries[key] && Items(nodes)[i] == entries[key].ToItem() && entries[key].key == key
  {
    i :| 0 <= i < |nodes| && nodes[i] == entries[key];
  }

  lemma KeysListed(nodes: seq<Node>, entries: map<Key, Node>)
    requires IndexOk(nodes, entries)
    ensures forall i :: 0 <= i < |Items(nodes)| ==> Items(nodes)[i].key in entries
    ensures KeysOf(Items(nodes)) == entries.Keys
  {
    hide Items;
    var s := Items(nodes);
    forall k | k in entries
      ensures k in KeysOf(s)
    {
      var i :| 0 <= i < |nodes| && nodes[i] == entries[k];
      assert s[i].key == k;
    }
  }

  lemma AbsentItem(nodes: seq<Node>, entries: map<Key, Node>, key: Key)
    requires IndexOk(nodes, entries) && key !in entries
    ensures forall i :: 0 <= i < |Items(nodes)| ==> Items(nodes)[i].key != key
  {
  }
}
