/** The writer's program takes only steps of the protocol. */
module WriterRefinement {
  import opened Base
  import opened Replay
  import opened WalCodec
  import opened Recovery
  import opened DiskLayout
  import opened DiskSteps
  import opened Protocol
  import opened ProtocolInvariant
  import opened CrashSafety
  import opened Writer
  import opened Recency
  import opened ShardLists
  import A = Accounting
  import ST = ShardedStore

  // ----- runs, piece by piece -----

  ghost predicate Leads(p: Platform, s: State, actions: seq<Action>, s': State)
    decreases |actions|
  {
    if actions == [] then s' == s
    else
      var n := |actions| - 1;
      exists mid :: Leads(p, s, actions[..n], mid) && Step(p, mid, actions[n], s')
  }

  lemma LeadsNext(p: Platform, s: State, actions: seq<Action>, mid: State, a: Action, s': State)
    requires Leads(p, s, actions, mid) && Step(p, mid, a, s')
    ensures Leads(p, s, actions + [a], s')
  {
    hide Step;
    assert (actions + [a])[..|actions|] == actions;
  }

  lemma {:induction false} LeadsMore(p: Platform, s: State, actions: seq<Action>, mid: State, more: seq<Action>, s': State)
    requires Leads(p, s, actions, mid) && Leads(p, mid, more, s')
    ensures Leads(p, s, actions + more, s')
    decreases |more|
  {
    hide Step;
    if more == [] {
      assert actions + more == actions;
    } else {
      var n := |more| - 1;
      var last :| Leads(p, mid, more[..n], last) && Step(p, last, more[n], s');
      LeadsMore(p, s, actions, mid, more[..n], last);
      LeadsNext(p, s, actions + more[..n], last, more[n], s');
      assert actions + more == (actions + more[..n]) + [more[n]];
    }
  }

  /** A run can be continued by what its last state leads to. */
  lemma {:induction false} RunExtends(p: Platform, states: seq<State>, actions: seq<Action>, more: seq<Action>, s': State)
    returns (states': seq<State>)
    requires IsRun(p, states, actions) && Leads(p, states[|states| - 1], more, s')
    ensures IsRun(p, states', actions + more) && states <= states' && states'[|states'| - 1] == s'
    decreases |more|
  {
    hide Step, Init;
    if more == [] {
      assert actions + more == actions;
      states' := states;
    } else {
      var n := |more| - 1;
      var mid :| Leads(p, states[|states| - 1], more[..n], mid) && Step(p, mid, more[n], s');
      var before := RunExtends(p, states, actions, more[..n], mid);
      states' := before + [s'];
      RunNext(p, before, actions + more[..n], more[n], s');
      assert actions + more == (actions + more[..n]) + [more[n]];
    }
  }

  lemma RunNext(p: Platform, states: seq<State>, actions: seq<Action>, a: Action, s': State)
    requires IsRun(p, states, actions) && Step(p, states[|states| - 1], a, s')
    ensures IsRun(p, states + [s'], actions + [a])
  {
    hide Step, Init;
  }

  // ----- one record -----

  /** Between rounds, everything applied has been acknowledged. */
  ghost predicate Settled(p: Platform, s: State) { Inv(p, s) && s.lock.Free? && s.acked == s.published }

  /** The shards' lists are what memory shows. */
  ghost predicate Mirrors(p: Platform, lists: seq<seq<Item>>, s: State) {
    |lists| == s.shards && Housed(p, lists) && Shows(p, lists, s.mem)
  }

  ghost predicate Monotone(clock: nat -> int) { forall a: nat, b: nat :: a <= b ==> clock(a) <= clock(b) }

  /** The clock has not gone back behind what the run has already seen. */
  ghost predicate Punctual(clock: nat -> int, s: State) { Monotone(clock) && s.now <= clock(s.published + 1) }

  lemma LeadsOne(p: Platform, s: State, a: Action, s': State)
    requires Step(p, s, a, s')
    ensures Leads(p, s, [a], s')
  {
    hide Step;
    assert Leads(p, s, [], s);
    LeadsNext(p, s, [], s, a, s');
    assert [] + [a] == [a];
  }

  /** One more step, and the invariant with it. */
  lemma Then(p: Platform, s: State, actions: seq<Action>, mid: State, a: Action, s': State)
    requires Leads(p, s, actions, mid) && Inv(p, mid) && Step(p, mid, a, s')
    ensures Leads(p, s, actions + [a], s') && Inv(p, s')
  {
    hide Inv, Step, Leads;
    LeadsNext(p, s, actions, mid, a, s');
    StepInv(p, mid, a, s');
  }

  /** The writer holds a shard with a record in it that is not published yet. */
  predicate Holding(s: State, i: nat) { s.lock == Held(i, true, false) }

  /** Expiring an entry while holding its shard. */
  lemma ExpireStep(p: Platform, s: State, key: Key)
    requires Inv(p, s) && key in s.mem && DeadlinePassed(s.mem[key].deadline, s.now)
    ensures Step(p, s, Expire(key), s.(mem := s.mem - {key}))
  {
    hide DiskOk, MemOk, TaskOk, SnapsBelow, PowerOfTwo, Shape;
    InvBasics(p, s);
  }

  /** Evicting an entry of the held shard, and counting it. */
  lemma EvictSteps(p: Platform, s: State, i: nat, key: Key)
    requires Inv(p, s) && Holding(s, i) && key in s.mem && ShardOf(p, s.shards, key) == i
    ensures
      var s1 := s.(mem := s.mem - {key}, lock := Held(i, true, true));
      && Step(p, s, Evict(key), s1) && Inv(p, s1)
      && Step(p, s1, CountEviction, s.(mem := s.mem - {key}, generation := s.generation + 1))
  {
    hide DiskOk, MemOk, TaskOk, SnapsBelow, PowerOfTwo, Shape;
    var s1 := s.(mem := s.mem - {key}, lock := Held(i, true, true));
    InvBasics(p, s);
    assert Step(p, s, Evict(key), s1);
    StepInv(p, s, Evict(key), s1);
    InvBasics(p, s1);
  }

  /** `evictToCapacityLocked` as steps: from the least recent entry of the list back to
      the first `n`, each removal an expiry or a counted eviction. */
  lemma {:induction false} TrimSteps(p: Platform, s: State, lists: seq<seq<Item>>, i: nat, list: seq<Item>, n: nat)
    returns (actions: seq<Action>, s': State)
    requires Inv(p, s) && Holding(s, i) && i < |lists| == s.shards && n <= |list|
    requires HousedAt(p, |lists|, list, i) && Shows(p, lists[i := list], s.mem)
    ensures Leads(p, s, actions, s') && Inv(p, s') && Shows(p, lists[i := list[..n]], s'.mem)
    ensures s' == s.(mem := s'.mem, generation := s.generation + CountLive(list[n..], s.now))
    decreases |list| - n
  {
    hide Inv, Step, Leads, Shows, HousedAt, CountLive;
    if n == |list| {
      EvictStart(list, s.now);
      assert Leads(p, s, [], s) by { LeadsNowhere(p, s); }
      actions, s' := [], s;
    } else {
      var mid;
      actions, mid := TrimSteps(p, s, lists, i, list, n + 1);
      LastRemovedShows(p, lists, i, list, n, mid.mem);
      CountOne(list, n, s.now);
      AtHome(p, |lists|, list, i, n);
      var key := list[n].key;
      if Expired(list[n], s.now) {
        s' := mid.(mem := mid.mem - {key});
        ExpireStep(p, mid, key);
        Then(p, s, actions, mid, Expire(key), s');
        actions := actions + [Expire(key)];
      } else {
        s' := mid.(mem := mid.mem - {key}, generation := mid.generation + 1);
        EvictSteps(p, mid, i, key);
        var between := mid.(mem := mid.mem - {key}, lock := Held(i, true, true));
        Then(p, s, actions, mid, Evict(key), between);
        Then(p, s, actions + [Evict(key)], between, CountEviction, s');
        actions := actions + [Evict(key)] + [CountEviction];
      }
    }
  }

  lemma LeadsNowhere(p: Platform, s: State)
    ensures Leads(p, s, [], s)
  {
  }

  lemma CountOne(list: seq<Item>, n: nat, now: int)
    requires n < |list|
    ensures CountLive(list[n..], now) == CountLive(list[n + 1..], now) + if Expired(list[n], now) then 0 else 1
  {
    assert list[n..][1..] == list[n + 1..];
  }

  lemma AtHome(p: Platform, shards: nat, list: seq<Item>, i: nat, j: nat)
    requires shards > 0 && HousedAt(p, shards, list, i) && j < |list|
    ensures ShardOf(p, shards, list[j].key) == i
  {
  }

  /** What the writer does to the shard it holds, after the record is in it. */
  lemma MakeRoomSteps(p: Platform, s: State, lists: seq<seq<Item>>, op: Op, sequence: uint64, slice: nat)
    returns (actions: seq<Action>, s': State)
    requires |lists| == s.shards && Housed(p, lists) && Inv(p, s) && Holding(s, ShardOf(p, |lists|, op.key))
    requires
      var i := ShardOf(p, |lists|, op.key);
      Shows(p, lists[i := AfterRecord(lists[i], op, sequence)], s.mem)
    ensures Leads(p, s, actions, s') && Inv(p, s')
    ensures
      var i := ShardOf(p, |lists|, op.key);
      && Shows(p, lists[i := AfterWrite(lists[i], op, sequence, s.now, slice)], s'.mem)
      && s' == s.(mem := s'.mem, generation := s.generation + EvictedByWrite(lists[i], op, sequence, s.now, slice))
  {
    hide Inv, Step, Leads, Shows, HousedAt, CountLive, Put, Without, Recency.Evict;
    var i := ShardOf(p, |lists|, op.key);
    assert HousedAt(p, |lists|, lists[i], i);
    LeadsNowhere(p, s);
    if op.Delete? {
      actions, s' := [], s;
    } else {
      var item := ItemOf(op, sequence);
      if Expired(item, s.now) {
        PutRemovedShows(p, lists, i, item, s.mem);
        s' := s.(mem := s.mem - {item.key});
        ExpireStep(p, s, item.key);
        Then(p, s, [], s, Expire(item.key), s');
        actions := [] + [Expire(item.key)];
      } else {
        var list := Put(lists[i], item);
        HousedPut(p, |lists|, lists[i], item, i);
        actions, s' := TrimSteps(p, s, lists, i, list, Kept(list, slice));
      }
    }
  }

  lemma TickStep(p: Platform, s: State, t: int)
    requires Inv(p, s) && s.now <= t
    ensures Step(p, s, Tick(t), s.(now := t)) && Inv(p, s.(now := t))
  {
    hide DiskOk, MemOk, TaskOk, SnapsBelow, PowerOfTwo, Shape;
    InvBasics(p, s);
    StepInv(p, s, Tick(t), s.(now := t));
  }

  /** The record goes into its shard, which the writer holds from then on. */
  lemma EnterStep(p: Platform, s: State)
    requires Inv(p, s) && s.lock.Free? && !s.latched && s.published < |s.disk.history|
    ensures s.published < MAX_SEQUENCE && s.shards > 0
    ensures
      var op := s.disk.history[s.published];
      Step(p, s, ApplyRecord, s.(mem := ApplyOp(s.mem, op, s.published + 1), lock := Held(ShardOf(p, s.shards, op.key), true, false)))
  {
    hide DiskOk, MemOk, TaskOk, SnapsBelow, ApplyOp, PowerOfTwo, Shape;
    InvBasics(p, s);
  }

  /** The two together, at the time the clock shows. */
  lemma EnterSteps(p: Platform, s: State, t: int)
    requires Settled(p, s) && !s.latched && s.published < |s.disk.history| && s.now <= t
    ensures s.published < MAX_SEQUENCE && s.shards > 0
    ensures
      var op := s.disk.history[s.published];
      var s1 := s.(now := t, mem := ApplyOp(s.mem, op, s.published + 1), lock := Held(ShardOf(p, s.shards, op.key), true, false));
      Leads(p, s, [Tick(t)] + [ApplyRecord], s1) && Inv(p, s1)
  {
    hide Inv, Step, ApplyOp, Leads;
    var s0 := s.(now := t);
    TickStep(p, s, t);
    LeadsOne(p, s, Tick(t), s0);
    EnterStep(p, s0);
    var op := s.disk.history[s.published];
    Then(p, s, [Tick(t)], s0, ApplyRecord,
         s0.(mem := ApplyOp(s0.mem, op, s0.published + 1), lock := Held(ShardOf(p, s0.shards, op.key), true, false)));
  }

  /** The sequence is published, the shard released, the caller answered. */
  lemma LeaveSteps(p: Platform, s: State, i: nat)
    requires Inv(p, s) && Holding(s, i) && s.acked == s.published
    ensures
      var s' := s.(published := s.published + 1, lock := Free, acked := s.published + 1);
      Leads(p, s, [Publish] + [Unlock] + [Acknowledge], s') && Settled(p, s')
  {
    hide DiskOk, MemOk, TaskOk, SnapsBelow, PowerOfTwo, Leads, Shape;
    var s1 := s.(published := s.published + 1, lock := Held(i, false, false));
    var s2 := s1.(lock := Free);
    InvBasics(p, s);
    assert Step(p, s, Publish, s1);
    StepInv(p, s, Publish, s1);
    LeadsOne(p, s, Publish, s1);
    InvBasics(p, s1);
    Then(p, s, [Publish], s1, Unlock, s2);
    InvBasics(p, s2);
    Then(p, s, [Publish] + [Unlock], s2, Acknowledge, s2.(acked := s2.acked + 1));
  }

  /** The next record of the history is applied, with the removals it entails, then
      published and acknowledged. */
  lemma RecordSteps(p: Platform, s: State, lists: seq<seq<Item>>, clock: nat -> int, slice: nat)
    returns (actions: seq<Action>, s': State)
    requires Settled(p, s) && !s.latched && s.published < |s.disk.history| <= MAX_SEQUENCE && Mirrors(p, lists, s) && Punctual(clock, s)
    ensures Leads(p, s, actions, s') && Settled(p, s') && Punctual(clock, s')
    ensures
      var op, q := s.disk.history[s.published], s.published + 1;
      var i := ShardOf(p, |lists|, op.key);
      && Mirrors(p, lists[i := AfterWrite(lists[i], op, q, clock(q), slice)], s')
      && s' == s.(now := clock(q), mem := s'.mem, published := q, acked := q,
                  generation := s.generation + EvictedByWrite(lists[i], op, q, clock(q), slice))
  {
    hide Inv, Step, Leads, Shows, HousedAt, ApplyOp, AfterWrite, AfterRecord, EvictedByWrite, Monotone;
    var op, q := s.disk.history[s.published], s.published + 1;
    var i := ShardOf(p, |lists|, op.key);
    EnterSteps(p, s, clock(q));
    var s1 := s.(now := clock(q), mem := ApplyOp(s.mem, op, q), lock := Held(i, true, false));
    assert Distinct(lists[i]) by { AtHomeDistinct(p, lists, i); }
    RecordShows(p, lists, s.mem, op, q);
    var removals, s2 := MakeRoomSteps(p, s1, lists, op, q, slice);
    LeaveSteps(p, s2, i);
    s' := s2.(published := q, lock := Free, acked := q);
    LeadsMore(p, s, [Tick(clock(q))] + [ApplyRecord], s1, removals, s2);
    actions := [Tick(clock(q))] + [ApplyRecord] + removals;
    LeadsMore(p, s, actions, s2, [Publish] + [Unlock] + [Acknowledge], s');
    actions := actions + ([Publish] + [Unlock] + [Acknowledge]);
    HousedWrite(p, lists, op, q, clock(q), slice);
    Later(clock, q);
  }

  lemma AtHomeDistinct(p: Platform, lists: seq<seq<Item>>, i: nat)
    requires Housed(p, lists) && i < |lists|
    ensures Distinct(lists[i])
  {
    hide Distinct;
    assert HousedAt(p, |lists|, lists[i], i);
  }

  lemma Later(clock: nat -> int, q: nat)
    requires Monotone(clock)
    ensures clock(q) <= clock(q + 1)
  {
  }

  /** The first `n` outstanding records, one after the other. */
  lemma {:induction false} RecordsSteps(p: Platform, s: State, lists: seq<seq<Item>>, n: nat, clock: nat -> int, slice: nat)
    returns (actions: seq<Action>, s': State)
    requires Settled(p, s) && !s.latched && s.published + n <= |s.disk.history| <= MAX_SEQUENCE
    requires Mirrors(p, lists, s) && Punctual(clock, s)
    ensures Leads(p, s, actions, s') && Settled(p, s') && Punctual(clock, s')
    ensures
      var ops := s.disk.history[s.published..s.published + n];
      && Mirrors(p, AfterWrites(p, lists, ops, s.published, clock, slice), s')
      && s' == s.(now := s'.now, mem := s'.mem, published := s.published + n, acked := s.published + n,
                  generation := s.generation + EvictedByAll(p, lists, ops, s.published, clock, slice))
    decreases n
  {
    hide Inv, Step, Leads, Shows, HousedAt, AfterWrite, EvictedByWrite, AfterWrites, EvictedByAll, Punctual;
    if n == 0 {
      NoWrites(p, lists, s.published, clock, slice);
      LeadsNowhere(p, s);
      assert s.disk.history[s.published..s.published] == [];
      actions, s' := [], s;
    } else {
      var before, mid := RecordsSteps(p, s, lists, n - 1, clock, slice);
      var ops := s.disk.history[s.published..s.published + n];
      assert ops[..n - 1] == s.disk.history[s.published..s.published + n - 1] && ops[..n] == ops;
      NextWrite(p, lists, ops, n - 1, s.published, clock, slice);
      var more;
      more, s' := RecordSteps(p, mid, AfterWrites(p, lists, ops[..n - 1], s.published, clock, slice), clock, slice);
      LeadsMore(p, s, before, mid, more, s');
      actions := before + more;
    }
  }

  // ----- one event -----

  /** The records an event makes visible. */
  function Visible(e: Event): seq<Op> { if e.Wrote? then e.ops else [] }

  /** Where an event leads: its files, its records applied with the removals they entail,
      published and acknowledged, and nothing else. */
  ghost predicate Outcome(p: Platform, s: State, lists: seq<seq<Item>>, ops: seq<Op>, clock: nat -> int, slice: nat, d: Disk, latched: bool,
                          s': State)
  {
    && s.published + |ops| <= MAX_SEQUENCE && lists != []
    && s'.disk == d && s'.latched == latched && Settled(p, s') && Punctual(clock, s')
    && (!latched ==> Quiet(s'))
    && s'.published == s.published + |ops|
    && Mirrors(p, AfterWrites(p, lists, ops, s.published, clock, slice), s')
    && s'.generation == s.generation + EvictedByAll(p, lists, ops, s.published, clock, slice)
    && s'.shards == s.shards && s'.task == s.task && s.now <= s'.now
  }

  lemma QuietFacts(p: Platform, s: State)
    requires Settled(p, s) && Quiet(s)
    ensures s.disk.durable == |s.disk.history| == s.published <= MAX_SEQUENCE && s.disk.tail == []
    ensures s.shards > 0 && Shape(s.disk) && LastName(s.disk) in s.disk.dir.segments
  {
    hide DiskOk, MemOk, TaskOk, SnapsBelow;
    InvBasics(p, s);
  }

  lemma RoundSteps(p: Platform, s: State, lists: seq<seq<Item>>, ops: seq<Op>, clock: nat -> int, slice: nat, d: Disk)
    returns (actions: seq<Action>, s': State)
    requires Settled(p, s) && Quiet(s) && Does(p, s.disk, Wrote(ops), d) && Mirrors(p, lists, s) && Punctual(clock, s)
    ensures Leads(p, s, actions, s') && Outcome(p, s, lists, ops, clock, slice, d, false, s')
  {
    hide Inv, EncodeOps, AllEncodable, Leads, AfterWrites, EvictedByAll, TornPart, WholeRecords, Shape, Shows, Housed, Monotone;
    QuietFacts(p, s);
    var mid := s.(disk := d);
    assert Step(p, s, WriteRound(ops), mid);
    StepInv(p, s, WriteRound(ops), mid);
    LeadsOne(p, s, WriteRound(ops), mid);
    assert d.history == s.disk.history + ops;
    assert d.history[s.published..s.published + |ops|] == ops;
    var more;
    more, s' := RecordsSteps(p, mid, lists, |ops|, clock, slice);
    LeadsMore(p, s, [WriteRound(ops)], mid, more, s');
    actions := [WriteRound(ops)] + more;
    TimePasses(p, mid, more, s');
  }

  lemma {:induction false} TimePasses(p: Platform, s: State, actions: seq<Action>, s': State)
    requires Leads(p, s, actions, s')
    ensures s.now <= s'.now
    decreases |actions|
  {
    hide Step;
    if actions != [] {
      var n := |actions| - 1;
      var mid :| Leads(p, s, actions[..n], mid) && Step(p, mid, actions[n], s');
      TimePasses(p, s, actions[..n], mid);
      NeverBack(p, mid, actions[n], s');
    }
  }

  lemma NeverBack(p: Platform, s: State, a: Action, s': State)
    requires Step(p, s, a, s')
    ensures s.now <= s'.now
  {
    hide Shape, AllEncodable, EncodeOps, RecoverLog, RecoverImage, Enumerates, RebuiltParts, PowerOfTwo, AppendCut, Roll, Install, ApplyOp;
  }

  /** Every event of the writer is a run of the protocol. */
  lemma EventSteps(p: Platform, s: State, lists: seq<seq<Item>>, e: Event, clock: nat -> int, slice: nat, d: Disk)
    returns (actions: seq<Action>, s': State)
    requires Settled(p, s) && Quiet(s) && Does(p, s.disk, e, d) && Mirrors(p, lists, s) && Punctual(clock, s)
    ensures Leads(p, s, actions, s') && Outcome(p, s, lists, Visible(e), clock, slice, d, Fails(e), s')
  {
    hide Inv, EncodeOps, AllEncodable, Leads, AfterWrites, EvictedByAll, TornPart, WholeRecords, Shape, Shows, Housed, Monotone;
    QuietFacts(p, s);
    NoWrites(p, lists, s.published, clock, slice);
    match e {
      case Wrote(ops) => actions, s' := RoundSteps(p, s, lists, ops, clock, slice, d);
      case Rolled => actions, s' := [RollSegment], s.(disk := d);
      case RollFailed(installed) => actions, s' := [FailRoll(installed)], s.(disk := d, latched := true);
      case Exhausted => actions, s' := [Latch], s.(latched := true);
      case Cut(ops, cut) => actions, s' := [CutRound(ops, cut)], s.(disk := d, latched := true);
    }
    if !e.Wrote? {
      assert Step(p, s, actions[0], s');
      StepInv(p, s, actions[0], s');
      LeadsOne(p, s, actions[0], s');
    }
  }

  /** Every sequence of events is a run of the protocol. */
  lemma {:induction false} EventsSteps(p: Platform, s: State, lists: seq<seq<Item>>, events: seq<Event>, clock: nat -> int, slice: nat, d: Disk)
    returns (actions: seq<Action>, s': State)
    requires Settled(p, s) && Quiet(s) && Plays(p, s.disk, events, d) && Mirrors(p, lists, s) && Punctual(clock, s)
    ensures Leads(p, s, actions, s') && Outcome(p, s, lists, Accepted(events), clock, slice, d, !Clean(events), s')
    decreases |events|
  {
    hide Inv, Does, Quiet, AfterWrites, EvictedByAll, Fails, Outcome, Mirrors, Punctual;
    if events == [] {
      NothingHappens(p, s, lists, clock, slice);
      actions, s' := [], s;
    } else {
      var n := |events| - 1;
      var d1 :| Plays(p, s.disk, events[..n], d1) && Does(p, d1, events[n], d);
      assert Clean(events[..n]);
      var first, mid := EventsSteps(p, s, lists, events[..n], clock, slice, d1);
      OutcomeFacts(p, s, lists, Accepted(events[..n]), clock, slice, d1, mid);
      var second;
      second, s' := EventSteps(p, mid, AfterWrites(p, lists, Accepted(events[..n]), s.published, clock, slice), events[n], clock, slice, d);
      actions := first + second;
      LeadsMore(p, s, first, mid, second, s');
      OutcomeJoins(p, s, lists, Accepted(events[..n]), d1, mid, Visible(events[n]), clock, slice, d, Fails(events[n]), s');
    }
  }

  lemma OutcomeFacts(p: Platform, s: State, lists: seq<seq<Item>>, ops: seq<Op>, clock: nat -> int, slice: nat, d: Disk, s': State)
    requires Outcome(p, s, lists, ops, clock, slice, d, false, s')
    ensures s.published + |ops| <= MAX_SEQUENCE && lists != []
    ensures s'.disk == d && Settled(p, s') && Quiet(s') && Punctual(clock, s')
    ensures Mirrors(p, AfterWrites(p, lists, ops, s.published, clock, slice), s')
  {
    hide Inv, AfterWrites, EvictedByAll, Mirrors, Punctual;
  }

  lemma OutcomeJoins(p: Platform, s: State, lists: seq<seq<Item>>, a: seq<Op>, d1: Disk, mid: State, b: seq<Op>, clock: nat -> int, slice: nat,
                     d: Disk, latched: bool, s': State)
    requires Outcome(p, s, lists, a, clock, slice, d1, false, mid)
    requires Outcome(p, mid, AfterWrites(p, lists, a, s.published, clock, slice), b, clock, slice, d, latched, s')
    ensures Outcome(p, s, lists, a + b, clock, slice, d, latched, s')
  {
    hide Inv, AfterWrites, EvictedByAll, Quiet, Mirrors, Punctual;
    WritesAppend(p, lists, a, b, s.published, clock, slice);
  }

  lemma NothingHappens(p: Platform, s: State, lists: seq<seq<Item>>, clock: nat -> int, slice: nat)
    requires Settled(p, s) && Quiet(s) && Mirrors(p, lists, s) && Punctual(clock, s)
    ensures Outcome(p, s, lists, [], clock, slice, s.disk, false, s) && Leads(p, s, [], s)
  {
    hide DiskOk, MemOk, TaskOk, SnapsBelow, Shows, Monotone;
    NoWrites(p, lists, s.published, clock, slice);
  }

  // ----- the program -----

  /** The writer's fields and the shards on the heap are those of a protocol state
      between rounds. */
  ghost predicate Matches(w: LogWriter, store: ST.Store, s: State)
    reads w, store`views, store.counters`generation
  {
    && s.disk == w.disk && s.published == w.sequence && s.acked == s.published && s.lock.Free?
    && s.latched == w.failure.Some?
    && |store.views| == s.shards && Shows(w.p, store.views, s.mem) && store.counters.generation == s.generation
  }

  /** `writeBatch` inside a run of the store, on the heap. The batch continues any run
      that has come to the writer's state: its files, its replies, and what it makes of
      the shards, evictions and entries dead on arrival included, are those of protocol
      steps, so every theorem about runs holds of the program. In particular whatever
      has been answered with success is recovered. `clock(q)` is the time at which
      record `q` is applied. */
  method WriteBatchInRun(w: LogWriter, store: ST.Store, requests: seq<Op>, fs: FileSystem, clock: nat -> int,
                         ghost states: seq<State>, ghost actions: seq<Action>)
    returns (replies: seq<Reply>, ghost states': seq<State>, ghost actions': seq<Action>)
    requires w.Valid() && AllEncodable(requests) && store.Valid() && store.p == w.p
    requires IsRun(w.p, states, actions) && Matches(w, store, states[|states| - 1]) && Punctual(clock, states[|states| - 1])
    modifies w, store`views, store.shards, store.Nodes(|store.shards|), store.counters
    ensures w.Valid() && store.Valid() && (old(store.Fits()) ==> store.Fits()) && |replies| == |requests|
    ensures IsRun(w.p, states', actions') && states <= states'
    ensures Matches(w, store, states'[|states'| - 1]) && Punctual(clock, states'[|states'| - 1])
    ensures old(w.sequence) <= w.sequence <= old(w.sequence) + |requests|
    ensures forall i :: 0 <= i < |replies| ==> (replies[i].Done? <==> i < w.sequence - old(w.sequence))
    ensures old(w.failure).Some? ==> w.failure == old(w.failure) && w.sequence == old(w.sequence)
    ensures old(w.failure).None? && w.failure.None? ==> w.sequence == old(w.sequence) + |requests|
    ensures old(w.failure).None? && NeverFails(fs) ==>
      w.failure.None? || (w.sequence == MAX_SEQUENCE && old(w.sequence) + |requests| > MAX_SEQUENCE)
    ensures old(store.views) != [] && store.views
         == AfterWrites(w.p, old(store.views), requests[..w.sequence - old(w.sequence)], old(w.sequence), clock, store.SliceOf())
    ensures forall shards: nat :: shards > 0 && ValidShards(shards) ==>
      var r := RecoverLog(w.p, w.disk.dir, shards);
      r.Recovered? && w.sequence <= r.sequence
    ensures forall x :: x in store.Nodes(|store.shards|) ==> x in old(store.Nodes(|store.shards|)) || fresh(x)
  {
    hide Step, Init, Inv, LogOk, AllEncodable, Stamped, Plays, Accepted, Leads, RecoverLog, PowerOfTwo, Live, GrownWithin, AfterWrites, EvictedByAll,
         AllTold, Blamed, NeverFails, Clean, Shows, Punctual, A.Slice, ST.Store.Valid, ST.Store.Fits, ST.Store.Nodes;
    ghost var s := states[|states| - 1];
    RunInv(w.p, states, actions, |states| - 1);
    var base: nat := w.sequence;
    ghost var lists, size := store.views, store.SliceOf();
    assert Housed(w.p, lists) by { store.AllHoused(); }
    var failed := w.failure.Some?;
    ghost var events;
    forall x | x in store.Nodes(|store.shards|)
      ensures allocated(x)
    {
      var _ := store.NodeAt(|store.shards|, x);
    }
    ghost var nodes := store.Nodes(|store.shards|);
    assert forall o: object :: o in ST.Parts(store.shards) ==> o != w;
    assert forall o: object :: o in nodes ==> o != w;
    label before:
    replies, events := w.WriteBatch(requests, fs);
    assert forall x :: x in nodes ==> unchanged@before(x);
    assert store.Nodes(|store.shards|) == nodes;
    assert store.Valid();
    var written := requests[..w.sequence - base];
    if failed {
      states', actions' := states, actions;
      assert written == [];
      NoWrites(w.p, lists, base, clock, size);
    } else {
      ghost var more, s' := EventsSteps(w.p, s, lists, events, clock, size, w.disk);
      states' := RunExtends(w.p, states, actions, more, s');
      actions' := actions + more;
    }
    store.ApplyRecords(written, base, clock);
    forall shards: nat | shards > 0 && ValidShards(shards)
      ensures RecoverLog(w.p, w.disk.dir, shards).Recovered? && w.sequence <= RecoverLog(w.p, w.disk.dir, shards).sequence
    {
      CrashSafe(w.p, states', actions', |states'| - 1, shards, states'[|states'| - 1].now);
    }
  }

  /** What one batch makes of the shards and of the sequence, and what its callers are told. */
  ghost predicate BatchDone(p: Platform, lists: seq<seq<Item>>, from: nat, batch: seq<Op>, replies: seq<Reply>, lists': seq<seq<Item>>, to: nat,
                            clock: nat -> int, slice: nat)
  {
    && lists != [] && from <= to <= from + |batch| && to <= MAX_SEQUENCE
    && |replies| == |batch| && (forall j :: 0 <= j < |replies| ==> (replies[j].Done? <==> j < to - from))
    && lists' == AfterWrites(p, lists, batch[..to - from], from, clock, slice)
  }

  /** Any number of batches, one after the other. */
  method WriteBatches(w: LogWriter, store: ST.Store, batches: seq<seq<Op>>, fs: FileSystem, clock: nat -> int,
                      ghost states: seq<State>, ghost actions: seq<Action>)
    returns (replies: seq<seq<Reply>>, ghost states': seq<State>, ghost actions': seq<Action>, ghost ends: seq<nat>, ghost at: seq<seq<seq<Item>>>)
    requires w.Valid() && store.Valid() && store.p == w.p && forall i :: 0 <= i < |batches| ==> AllEncodable(batches[i])
    requires IsRun(w.p, states, actions) && Matches(w, store, states[|states| - 1]) && Punctual(clock, states[|states| - 1])
    modifies w, store`views, store.shards, store.Nodes(|store.shards|), store.counters
    ensures w.Valid() && store.Valid() && (old(store.Fits()) ==> store.Fits())
    ensures |replies| == |batches| && |ends| == |at| == |batches| + 1
    ensures ends[0] == old(w.sequence) && ends[|batches|] == w.sequence && at[0] == old(store.views) && at[|batches|] == store.views
    ensures forall i :: 0 <= i < |batches| ==>
      BatchDone(w.p, at[i], ends[i], batches[i], replies[i], at[i + 1], ends[i + 1], clock, store.SliceOf())
    ensures old(w.failure).None? && NeverFails(fs) ==> w.failure.None? || w.sequence == MAX_SEQUENCE
    ensures w.failure.None? ==> forall i :: 0 <= i < |batches| ==> ends[i + 1] == ends[i] + |batches[i]|
    ensures IsRun(w.p, states', actions') && states <= states'
    ensures Matches(w, store, states'[|states'| - 1]) && Punctual(clock, states'[|states'| - 1])
  {
    hide Step, Init, AllEncodable, RecoverLog, PowerOfTwo, AfterWrites, Punctual, Shows, ST.Store.Valid, ST.Store.Fits, ST.Store.Nodes, LogWriter.Valid;
    replies, states', actions' := [], states, actions;
    ends, at := [w.sequence], [store.views];
    for i := 0 to |batches|
      invariant w.Valid() && store.Valid() && (old(store.Fits()) ==> store.Fits())
      invariant |replies| == i && |ends| == |at| == i + 1
      invariant ends[0] == old(w.sequence) && ends[i] == w.sequence && at[0] == old(store.views) && at[i] == store.views
      invariant forall j :: 0 <= j < i ==> BatchDone(w.p, at[j], ends[j], batches[j], replies[j], at[j + 1], ends[j + 1], clock, store.SliceOf())
      invariant old(w.failure).None? && NeverFails(fs) ==> w.failure.None? || w.sequence == MAX_SEQUENCE
      invariant w.failure.None? ==> forall j :: 0 <= j < i ==> ends[j + 1] == ends[j] + |batches[j]|
      invariant IsRun(w.p, states', actions') && |states'| > 0 && states <= states'
      invariant Matches(w, store, states'[|states'| - 1]) && Punctual(clock, states'[|states'| - 1])
      invariant forall x :: x in store.Nodes(|store.shards|) ==> x in old(store.Nodes(|store.shards|)) || fresh(x)
    {
      var more;
      more, states', actions' := WriteBatchInRun(w, store, batches[i], fs, clock, states', actions');
      replies, ends, at := replies + [more], ends + [w.sequence], at + [store.views];
    }
  }
}
