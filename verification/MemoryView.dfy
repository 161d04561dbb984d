/** What memory shows of the log, whatever has been evicted. */
module MemoryView {
  import opened Base
  import opened Replay
  import opened WalCodec
  import opened Recovery
  import opened DiskLayout
  import opened DiskSteps
  import opened Protocol
  import opened ProtocolInvariant
  import opened CrashSafety
  import SC = SnapshotCodec

  /** Memory shows the key as the history does, up to expiry. */
  predicate Shown(p: Platform, s: State, k: Key)
    requires s.shards > 0 && Reflected(p, s, k) <= |s.disk.history| <= MAX_SEQUENCE
  {
    Agrees(Lookup(s.mem, k), KeyAt(s.disk.history, Reflected(p, s, k), k), s.now)
  }

  /** The steps that put a key's state into memory afresh: its next record, and recovery. */
  predicate Renews(s: State, a: Action, k: Key) {
    || a.Restart?
    || (a.ApplyRecord? && s.published < |s.disk.history| && s.disk.history[s.published].key == k)
  }

  predicate EvictedAt(states: seq<State>, actions: seq<Action>, i: nat, k: Key, j: nat)
    requires i <= |actions| && i <= |states| && j < i
  {
    actions[j] == Evict(k) && forall l :: j < l < i ==> !Renews(states[l], actions[l], k)
  }

  /** The key was evicted before state `i` and has not been put back since. */
  ghost predicate EvictedSince(states: seq<State>, actions: seq<Action>, i: nat, k: Key)
    requires i <= |actions| && i <= |states|
  {
    exists j :: 0 <= j < i && EvictedAt(states, actions, i, k, j)
  }

  lemma EvictedNext(states: seq<State>, actions: seq<Action>, i: nat, k: Key)
    requires i < |actions| && i < |states|
    ensures EvictedSince(states, actions, i + 1, k)
       <==> actions[i] == Evict(k) || (EvictedSince(states, actions, i, k) && !Renews(states[i], actions[i], k))
  {
    hide Renews;
    if actions[i] == Evict(k) {
      assert EvictedAt(states, actions, i + 1, k, i);
    } else if EvictedSince(states, actions, i, k) && !Renews(states[i], actions[i], k) {
      var j :| 0 <= j < i && EvictedAt(states, actions, i, k, j);
      assert EvictedAt(states, actions, i + 1, k, j);
    }
    if EvictedSince(states, actions, i + 1, k) {
      var j :| 0 <= j < i + 1 && EvictedAt(states, actions, i + 1, k, j);
      if j < i { assert EvictedAt(states, actions, i, k, j); }
    }
  }

  // ----- one step -----

  lemma ShownBounds(p: Platform, s: State, k: Key)
    requires Inv(p, s)
    ensures s.shards > 0 && Reflected(p, s, k) <= |s.disk.history| <= MAX_SEQUENCE
    ensures KeyOk(p, s, k)
  {
    hide DiskOk, TaskOk, SnapsBelow, PowerOfTwo, KeyAt;
  }

  /** Steps of the log, the clock and the snapshot task leave memory as it is. */
  predicate OffMemory(a: Action) {
    !(a.ApplyRecord? || a.Publish? || a.Unlock? || a.Enforce? || a.Evict? || a.CountEviction? || a.Expire? || a.Restart?)
  }

  lemma OffMemoryFrame(p: Platform, s: State, a: Action, s': State)
    requires Inv(p, s) && Step(p, s, a, s') && OffMemory(a)
    ensures s'.mem == s.mem && s'.lock == s.lock && s'.published == s.published && s'.shards == s.shards && s.now <= s'.now
    ensures s.disk.durable <= |s.disk.history| && s.disk.durable <= |s'.disk.history|
    ensures s.disk.history[..s.disk.durable] == s'.disk.history[..s.disk.durable]
  {
    hide DiskOk, MemOk, TaskOk, RecoverLog, RecoverImage, Enumerates, RebuiltParts, SC.WellFormed, AllEncodable, EncodeOps, Shape, PowerOfTwo,
         Flatten, Repeat, Lowest, ApplyOp, TornPart, WholeRecords;
  }

  lemma OffMemoryShown(p: Platform, s: State, a: Action, s': State, k: Key)
    requires Inv(p, s) && Inv(p, s') && Step(p, s, a, s') && OffMemory(a)
    ensures s.shards > 0 && Reflected(p, s, k) <= |s.disk.history| <= MAX_SEQUENCE
    ensures s'.shards > 0 && Reflected(p, s', k) <= |s'.disk.history| <= MAX_SEQUENCE
    ensures (Shown(p, s, k) ==> Shown(p, s', k)) && Lookup(s'.mem, k) == Lookup(s.mem, k)
  {
    hide Step, DiskOk, MemOk, TaskOk, SnapsBelow, PowerOfTwo, KeyAt;
    OffMemoryFrame(p, s, a, s');
    PrefixKey(s.disk.history, s'.disk.history, Reflected(p, s, k), s.disk.durable, k);
  }

  /** The writer's record of another key leaves this one as it is. */
  lemma OtherRecordShown(p: Platform, s: State, a: Action, s': State, k: Key)
    requires Inv(p, s) && Inv(p, s') && Step(p, s, a, s') && (a.ApplyRecord? || a.Publish?) && !Renews(s, a, k)
    ensures s.shards > 0 && Reflected(p, s, k) <= |s.disk.history| <= MAX_SEQUENCE
    ensures s'.shards > 0 && Reflected(p, s', k) <= |s'.disk.history| <= MAX_SEQUENCE
    ensures (Shown(p, s, k) ==> Shown(p, s', k)) && (k !in s.mem ==> k !in s'.mem)
  {
    hide DiskOk, MemOk, TaskOk, SnapsBelow, PowerOfTwo, Shape, RecoverLog, RecoverImage, Enumerates, RebuiltParts, AllEncodable, EncodeOps,
         AppendCut, Roll, Install, KeyAt;
    ShownBounds(p, s, k);
    ShownBounds(p, s', k);
    if s.disk.history[s.published].key != k { KeyAtQuiet(s.disk.history, s.published, s.published + 1, k); }
  }

  /** The steps on memory, other than one that evicts the key or puts it back. */
  lemma OnMemoryShown(p: Platform, s: State, a: Action, s': State, k: Key)
    requires Inv(p, s) && Inv(p, s') && Step(p, s, a, s') && !OffMemory(a) && a != Evict(k) && !Renews(s, a, k)
    ensures s.shards > 0 && Reflected(p, s, k) <= |s.disk.history| <= MAX_SEQUENCE
    ensures s'.shards > 0 && Reflected(p, s', k) <= |s'.disk.history| <= MAX_SEQUENCE
    ensures (Shown(p, s, k) ==> Shown(p, s', k)) && (k !in s.mem ==> k !in s'.mem)
  {
    hide DiskOk, MemOk, TaskOk, SnapsBelow, PowerOfTwo, Shape, RecoverLog, RecoverImage, Enumerates, RebuiltParts, AllEncodable, EncodeOps,
         AppendCut, Roll, Install, KeyAt, ApplyOp;
    ShownBounds(p, s, k);
    ShownBounds(p, s', k);
    if a.ApplyRecord? || a.Publish? { OtherRecordShown(p, s, a, s', k); }
  }

  lemma RenewedShown(p: Platform, s: State, a: Action, s': State, k: Key)
    requires Inv(p, s) && Inv(p, s') && Step(p, s, a, s') && Renews(s, a, k)
    ensures s'.shards > 0 && Reflected(p, s', k) <= |s'.disk.history| <= MAX_SEQUENCE
    ensures Shown(p, s', k)
  {
    hide DiskOk, MemOk, TaskOk, SnapsBelow, PowerOfTwo, Shape, RecoverLog, RecoverImage, Enumerates, RebuiltParts, AllEncodable, EncodeOps,
         AppendCut, Roll, Install;
    ShownBounds(p, s', k);
  }

  lemma EvictedGone(p: Platform, s: State, s': State, k: Key)
    requires Step(p, s, Evict(k), s')
    ensures k !in s'.mem
  {
  }

  /** What is known of one key: gone if it was evicted, shown otherwise. */
  ghost predicate Known(p: Platform, s: State, k: Key, evicted: bool)
    requires s.shards > 0 && Reflected(p, s, k) <= |s.disk.history| <= MAX_SEQUENCE
  {
    if evicted then k !in s.mem else Shown(p, s, k)
  }

  lemma {:induction false} KnownAlways(p: Platform, states: seq<State>, actions: seq<Action>, i: nat, k: Key)
    requires IsRun(p, states, actions) && i < |states|
    ensures states[i].shards > 0 && Reflected(p, states[i], k) <= |states[i].disk.history| <= MAX_SEQUENCE
    ensures Known(p, states[i], k, EvictedSince(states, actions, i, k))
  {
    hide Inv, Step, EvictedSince, Shown, Renews, Reflected;
    RunInv(p, states, actions, i);
    ShownBounds(p, states[i], k);
    if i == 0 {
      FirstShown(p, states, actions, k);
    } else {
      var s, a, s' := states[i - 1], actions[i - 1], states[i];
      RunInv(p, states, actions, i - 1);
      KnownAlways(p, states, actions, i - 1, k);
      EvictedNext(states, actions, i - 1, k);
      if a == Evict(k) {
        EvictedGone(p, s, s', k);
      } else if Renews(s, a, k) {
        RenewedShown(p, s, a, s', k);
      } else if OffMemory(a) {
        OffMemoryShown(p, s, a, s', k);
      } else {
        OnMemoryShown(p, s, a, s', k);
      }
    }
  }

  lemma FirstShown(p: Platform, states: seq<State>, actions: seq<Action>, k: Key)
    requires IsRun(p, states, actions) && Inv(p, states[0])
    ensures states[0].shards > 0 && Reflected(p, states[0], k) <= |states[0].disk.history| <= MAX_SEQUENCE
    ensures Known(p, states[0], k, EvictedSince(states, actions, 0, k))
  {
    hide Step;
    ShownBounds(p, states[0], k);
  }

  /** The capture invariant, over runs. In every reachable state and for every key,
      memory holds nothing but the state of the key in the history its shard reflects:
      the history through `logSequence`, and one record more only while the writer holds
      the shard with that record in it. The entry is missing if the key was evicted and
      no later record of it was applied, nor the store reopened; otherwise it is missing
      only if it has expired. Before this process counts an eviction, nothing is. */
  lemma MemoryShowsTheLog(p: Platform, states: seq<State>, actions: seq<Action>, i: nat, k: Key)
    requires IsRun(p, states, actions) && i < |states|
    ensures
      var s := states[i];
      && s.shards > 0 && s.published <= |s.disk.history| <= MAX_SEQUENCE && Reflected(p, s, k) <= |s.disk.history|
      && (!(s.lock.Held? && s.lock.shard == ShardOf(p, s.shards, k)) ==> Reflected(p, s, k) == s.published)
      && var held := Lookup(s.mem, k);
         var truth := KeyAt(s.disk.history, Reflected(p, s, k), k);
         && (held == None || held == truth)
         && (if EvictedSince(states, actions, i, k) then held == None else Agrees(held, truth, s.now))
         && (Complete(p, s, k) ==> Agrees(held, truth, s.now))
  {
    hide Step, DiskOk, TaskOk, PowerOfTwo, KeyAt, EvictedSince;
    RunInv(p, states, actions, i);
    ShownBounds(p, states[i], k);
    KnownAlways(p, states, actions, i, k);
  }
}
