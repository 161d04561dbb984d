/** The single writer: rounds of records, rollover, and the latch. */
module Writer {
  import opened Base
  import opened Replay
  import opened Listing
  import opened Slices
  import opened WalCodec
  import opened SegmentRecovery
  import opened Recovery
  import opened DiskLayout
  import opened DiskSteps
  import opened RecordBuffer

  /** What the file system answers to a write or a rollover. */
  datatype WriteOutcome = Written | WriteFailed(cut: nat, error: int)
  datatype RollOutcome = Rolled | RollFailed(installed: bool, error: int)
  datatype FileSystem = FileSystem(write: nat -> WriteOutcome, roll: nat -> RollOutcome)

  const EXHAUSTED: int := -1

  datatype Reply = Done | Failed(error: int)

  /** One call of `applySet` or `applyDelete`. */
  datatype Applied = Applied(sequence: uint64, op: Op)

  function Stamped(base: nat, ops: seq<Op>): seq<Applied>
    requires base + |ops| <= MAX_SEQUENCE
  {
    if ops == [] then [] else Stamped(base, ops[..|ops| - 1]) + [Applied(base + |ops|, ops[|ops| - 1])]
  }

  // ----- sizes -----

  lemma {:induction false} TotalSizeAppend(a: seq<Op>, b: seq<Op>)
    ensures TotalSize(a + b) == TotalSize(a) + TotalSize(b)
    decreases a
  {
    if a == [] {
      assert a + b == b;
    } else {
      assert (a + b)[1..] == a[1..] + b;
      TotalSizeAppend(a[1..], b);
    }
  }

  lemma TotalSizePrefix(ops: seq<Op>, n: nat)
    requires n <= |ops|
    ensures TotalSize(ops[..n]) <= TotalSize(ops)
  {
    TotalSizeAppend(ops[..n], ops[n..]);
    assert ops == ops[..n] + ops[n..];
  }

  lemma TotalSizeLast(ops: seq<Op>, op: Op)
    ensures TotalSize(ops + [op]) == TotalSize(ops) + RecordSize(op)
  {
    TotalSizeAppend(ops, [op]);
    assert [op][1..] == [];
  }

  /** Without its last record a segment is within the configured size. */
  predicate SizedOps(ops: seq<Op>, size: nat) {
    ops != [] ==> HEADER_SIZE + TotalSize(ops[..|ops| - 1]) <= size
  }

  predicate SizedAt(d: Disk, j: nat, size: nat)
    requires Shape(d) && j < |d.firsts|
  {
    SizedOps(OpsOf(d, j), size)
  }

  ghost predicate Sized(d: Disk, size: nat)
    requires Shape(d)
  {
    forall j :: 0 <= j < |d.firsts| ==> SizedAt(d, j, size)
  }

  predicate SameSegmentAs(before: Disk, i: nat, after: Disk, j: nat)
    requires Shape(before) && i < |before.firsts| && Shape(after) && j < |after.firsts|
  {
    before.firsts[i] == after.firsts[j] && OpsOf(before, i) == OpsOf(after, j)
  }

  /** Segment `j` was there before and has not changed. */
  ghost predicate Untouched(before: Disk, after: Disk, j: nat)
    requires Shape(before) && Shape(after) && j < |after.firsts|
  {
    exists i :: 0 <= i < |before.firsts| && SameSegmentAs(before, i, after, j)
  }

  /** Every segment that is new or has grown is within the size without its last record.
      Nothing is said of segments written under another size and left alone since. */
  ghost predicate GrownWithin(before: Disk, after: Disk, size: nat)
    requires Shape(before) && Shape(after)
  {
    forall j :: 0 <= j < |after.firsts| ==> Untouched(before, after, j) || SizedAt(after, j, size)
  }

  lemma GrownSame(d: Disk, size: nat)
    requires Shape(d)
    ensures GrownWithin(d, d, size)
  {
    hide OpsOf, SizedOps;
    forall j | 0 <= j < |d.firsts|
      ensures Untouched(d, d, j)
    {
      assert SameSegmentAs(d, j, d, j);
    }
  }

  lemma GrownTwice(a: Disk, b: Disk, c: Disk, size: nat)
    requires Shape(a) && Shape(b) && Shape(c) && GrownWithin(a, b, size) && GrownWithin(b, c, size)
    ensures GrownWithin(a, c, size)
  {
    hide OpsOf, SizedOps, Shape;
    forall j | 0 <= j < |c.firsts|
      ensures Untouched(a, c, j) || SizedAt(c, j, size)
    {
      if Untouched(b, c, j) {
        var i :| 0 <= i < |b.firsts| && SameSegmentAs(b, i, c, j);
        if Untouched(a, b, i) {
          var l :| 0 <= l < |a.firsts| && SameSegmentAs(a, l, b, i);
          assert SameSegmentAs(a, l, c, j);
        }
      }
    }
  }

  /** A log that only ever grew under one size: all its segments are within it. */
  lemma AllSized(d: Disk, size: nat)
    requires Shape(d) && Shape(Fresh()) && GrownWithin(Fresh(), d, size)
    ensures Sized(d, size)
  {
    forall j | 0 <= j < |d.firsts|
      ensures SizedAt(d, j, size)
    {
      if Untouched(Fresh(), d, j) {
        var i :| 0 <= i < |Fresh().firsts| && SameSegmentAs(Fresh(), i, d, j);
      }
    }
  }

  /** Appending part of a round that was planned within the size keeps it. */
  lemma SizedAppend(before: seq<Op>, round: seq<Op>, n: nat, size: nat)
    requires n <= |round| && round != []
    requires HEADER_SIZE + TotalSize(before) + TotalSize(round[..|round| - 1]) <= size
    ensures SizedOps(before + round[..n], size)
  {
    if n == 0 {
      assert before + round[..n] == before;
      if before != [] { TotalSizePrefix(before, |before| - 1); }
    } else {
      var all := before + round[..n];
      assert all[..|all| - 1] == before + round[..|round| - 1][..n - 1];
      TotalSizeAppend(before, round[..|round| - 1][..n - 1]);
      TotalSizePrefix(round[..|round| - 1], n - 1);
    }
  }

  lemma AppendGrown(p: Platform, d: Disk, round: seq<Op>, cut: nat, size: nat)
    requires LogOk(p, d) && d.tail == [] && d.durable == |d.history|
    requires AllEncodable(round) && round != [] && d.durable + |round| <= MAX_SEQUENCE
    requires LastName(d) in d.dir.segments && cut <= |EncodeOps(p, d.durable, round)|
    requires HEADER_SIZE + TotalSize(OpsOf(d, |d.firsts| - 1)) + TotalSize(round[..|round| - 1]) <= size
    requires Shape(AppendCut(p, d, round, cut))
    ensures GrownWithin(d, AppendCut(p, d, round, cut), size)
  {
    hide EncodeOps, AllEncodable, TornPart, WholeRecords, SizedOps, FileOf, Lists, TornTail, TotalSize;
    var d' := AppendCut(p, d, round, cut);
    var last := |d.firsts| - 1;
    forall j | 0 <= j < |d'.firsts|
      ensures Untouched(d, d', j) || SizedAt(d', j, size)
    {
      Extent(d, j);
      if j == last {
        SliceOfAppend(d.history, round, Before(d.firsts[j]), WholeRecords(round, cut));
        SizedAppend(OpsOf(d, j), round, WholeRecords(round, cut), size);
      } else {
        assert OpsOf(d', j) == OpsOf(d, j);
        assert SameSegmentAs(d, j, d', j);
      }
    }
  }

  lemma RollGrown(p: Platform, d: Disk, size: nat)
    requires LogOk(p, d) && d.tail == [] && d.durable < MAX_SEQUENCE && Shape(Roll(d))
    ensures GrownWithin(d, Roll(d), size)
  {
    hide AllEncodable, FileOf, Lists, TornTail, TotalSize;
    var d' := Roll(d);
    forall j | 0 <= j < |d'.firsts|
      ensures Untouched(d, d', j) || SizedAt(d', j, size)
    {
      Extent(d', j);
      if j < |d.firsts| {
        Extent(d, j);
        assert OpsOf(d', j) == OpsOf(d, j);
        assert SameSegmentAs(d, j, d', j);
      }
    }
  }

  lemma LastFileSize(p: Platform, d: Disk)
    requires LogOk(p, d) && d.tail == []
    ensures LastName(d) in d.dir.segments
    ensures |d.dir.segments[LastName(d)]| == HEADER_SIZE + TotalSize(OpsOf(d, |d.firsts| - 1))
  {
    hide EncodeOps, AllEncodable, FileOf, Lists, TornTail, TotalSize;
    var j := |d.firsts| - 1;
    SegmentFacts(p, d, j);
    EncodeOpsSize(p, Before(d.firsts[j]), OpsOf(d, j));
  }

  lemma StampedNothing(base: nat)
    requires base <= MAX_SEQUENCE
    ensures Stamped(base, []) == []
  {
  }

  /** The records are applied under consecutive sequences, from the one after `base` on. */
  lemma {:induction false} StampedAt(base: nat, ops: seq<Op>, i: nat)
    requires base + |ops| <= MAX_SEQUENCE && i < |ops|
    ensures |Stamped(base, ops)| == |ops| && Stamped(base, ops)[i] == Applied(base + i + 1, ops[i])
    decreases |ops|
  {
    var n := |ops| - 1;
    StampedSize(base, ops[..n]);
    if i < n { StampedAt(base, ops[..n], i); }
  }

  lemma {:induction false} StampedSize(base: nat, ops: seq<Op>)
    requires base + |ops| <= MAX_SEQUENCE
    ensures |Stamped(base, ops)| == |ops|
    decreases |ops|
  {
    if ops != [] { StampedSize(base, ops[..|ops| - 1]); }
  }

  lemma StampedLast(base: nat, ops: seq<Op>, n: nat)
    requires base + |ops| <= MAX_SEQUENCE && n < |ops|
    ensures Stamped(base, ops[..n + 1]) == Stamped(base, ops[..n]) + [Applied(base + n + 1, ops[n])]
  {
    assert ops[..n + 1][..n] == ops[..n];
  }

  lemma {:induction false} StampedAppend(base: nat, a: seq<Op>, b: seq<Op>)
    requires base + |a| + |b| <= MAX_SEQUENCE
    ensures Stamped(base, a + b) == Stamped(base, a) + Stamped(base + |a|, b)
    decreases |b|
  {
    if b == [] {
      assert a + b == a;
    } else {
      var n := |b| - 1;
      assert (a + b)[..|a| + n] == a + b[..n];
      StampedAppend(base, a, b[..n]);
    }
  }

  // ----- what happens to the files -----

  /** What the writer does to its directory, one call at a time. */
  datatype Event = Rolled | RollFailed(installed: bool) | Exhausted | Wrote(ops: seq<Op>) | Cut(ops: seq<Op>, cut: nat)

  predicate Fails(e: Event) { e.RollFailed? || e.Exhausted? || e.Cut? }

  /** The records written and applied. */
  function Accepted(events: seq<Event>): seq<Op> {
    if events == [] then []
    else
      var n := |events| - 1;
      Accepted(events[..n]) + if events[n].Wrote? then events[n].ops else []
  }

  ghost predicate CanAppend(p: Platform, d: Disk, ops: seq<Op>) {
    && Shape(d) && LastName(d) in d.dir.segments
    && ops != [] && AllEncodable(ops) && d.durable + |ops| <= MAX_SEQUENCE
  }

  ghost predicate Does(p: Platform, d: Disk, e: Event, d': Disk) {
    match e
    case Rolled => d.durable < MAX_SEQUENCE && d' == Roll(d)
    case RollFailed(installed) => d.durable < MAX_SEQUENCE && d' == if installed then Roll(d) else d
    case Exhausted => d' == d
    case Wrote(ops) => CanAppend(p, d, ops) && d' == AppendCut(p, d, ops, |EncodeOps(p, d.durable, ops)|)
    case Cut(ops, cut) =>
      CanAppend(p, d, ops) && cut <= |EncodeOps(p, d.durable, ops)| && d' == AppendCut(p, d, ops, cut)
  }

  /** One event after the other; only the last may be a failure. */
  ghost predicate Plays(p: Platform, d: Disk, events: seq<Event>, d': Disk)
    decreases |events|
  {
    if events == [] then d' == d
    else
      var n := |events| - 1;
      (n > 0 ==> !Fails(events[n - 1])) && exists mid :: Plays(p, d, events[..n], mid) && Does(p, mid, events[n], d')
  }

  /** The event is what the file system answered to that call. */
  ghost predicate Told(fs: FileSystem, call: nat, e: Event) {
    match e
    case Rolled => fs.roll(call).Rolled?
    case RollFailed(installed) => fs.roll(call).RollFailed? && fs.roll(call).installed == installed
    case Exhausted => true
    case Wrote(_) => fs.write(call).Written?
    case Cut(_, cut) => fs.write(call).WriteFailed? && cut <= fs.write(call).cut
  }

  /** The error it comes with. */
  function ErrorOf(fs: FileSystem, call: nat, e: Event): int
    requires Told(fs, call, e) && Fails(e)
  {
    match e
    case RollFailed(_) => fs.roll(call).error
    case Cut(_, _) => fs.write(call).error
    case Exhausted => EXHAUSTED
  }

  /** What happened is what the file system answered, call by call. */
  ghost predicate AllTold(fs: FileSystem, from: nat, events: seq<Event>) {
    forall k :: 0 <= k < |events| ==> Told(fs, from + k, events[k])
  }

  lemma ToldMore(fs: FileSystem, from: nat, events: seq<Event>, more: seq<Event>)
    requires AllTold(fs, from, events) && AllTold(fs, from + |events|, more)
    ensures AllTold(fs, from, events + more)
  {
    hide Told;
    forall k | 0 <= k < |events + more|
      ensures Told(fs, from + k, (events + more)[k])
    {
      if k >= |events| { assert Told(fs, from + |events| + (k - |events|), more[k - |events|]); }
    }
  }

  /** Why a batch failed: the last thing that happened did, with this error. */
  ghost predicate Blamed(fs: FileSystem, from: nat, events: seq<Event>, error: int, sequence: nat) {
    && AllTold(fs, from, events) && events != []
    && var n := |events| - 1;
       Fails(events[n]) && error == ErrorOf(fs, from + n, events[n]) && (events[n].Exhausted? ==> sequence == MAX_SEQUENCE)
  }

  lemma BlamedLater(fs: FileSystem, from: nat, events: seq<Event>, more: seq<Event>, error: int, sequence: nat)
    requires AllTold(fs, from, events) && Blamed(fs, from + |events|, more, error, sequence)
    ensures Blamed(fs, from, events + more, error, sequence)
  {
    hide Told;
    ToldMore(fs, from, events, more);
    var n := |more| - 1;
    assert (events + more)[|events| + n] == more[n] && Told(fs, from + |events| + n, more[n]);
  }

  lemma NothingTold(fs: FileSystem, from: nat)
    ensures AllTold(fs, from, [])
  {
  }

  lemma Exhaustion(fs: FileSystem, from: nat)
    ensures AllTold(fs, from, [] + [Exhausted]) && Blamed(fs, from, [] + [Exhausted], EXHAUSTED, MAX_SEQUENCE)
    ensures !Clean([] + [Exhausted])
  {
  }

  /** One event more, at the next call. */
  lemma OneMore(fs: FileSystem, from: nat, events: seq<Event>, call: nat, e: Event, error: int, sequence: nat)
    requires AllTold(fs, from, events) && call == from + |events| && Told(fs, call, e)
    ensures AllTold(fs, from, events + [e]) && (Clean(events + [e]) <==> !Fails(e))
    ensures Fails(e) <==> e.RollFailed? || e.Exhausted? || e.Cut?
    ensures Fails(e) && !e.Exhausted? && error == ErrorOf(fs, call, e) ==> Blamed(fs, from, events + [e], error, sequence)
  {
    hide Told;
    assert (events + [e])[|events|] == e;
  }

  /** A file system that does not fail. */
  ghost predicate NeverFails(fs: FileSystem) { forall call: nat :: fs.write(call).Written? && fs.roll(call).Rolled? }

  lemma OnlyExhaustion(fs: FileSystem, from: nat, events: seq<Event>, error: int, sequence: nat)
    requires NeverFails(fs) && Blamed(fs, from, events, error, sequence)
    ensures sequence == MAX_SEQUENCE
  {
    var n := |events| - 1;
    assert Told(fs, from + n, events[n]);
  }

  predicate Clean(events: seq<Event>) { events == [] || !Fails(events[|events| - 1]) }

  lemma PlaysOne(p: Platform, d: Disk, events: seq<Event>, mid: Disk, e: Event, d': Disk)
    requires Plays(p, d, events, mid) && Clean(events) && Does(p, mid, e, d')
    ensures Plays(p, d, events + [e], d')
    ensures Accepted(events + [e]) == Accepted(events) + if e.Wrote? then e.ops else []
  {
    hide Does;
    assert (events + [e])[..|events|] == events;
  }

  lemma {:induction false} AcceptedMore(events: seq<Event>, more: seq<Event>)
    ensures Accepted(events + more) == Accepted(events) + Accepted(more)
    decreases |more|
  {
    if more == [] {
      assert events + more == events;
    } else {
      var n := |more| - 1;
      AcceptedMore(events, more[..n]);
      assert (events + more)[..|events| + n] == events + more[..n];
    }
  }

  lemma PlaysLast(p: Platform, d: Disk, events: seq<Event>, d': Disk) returns (mid: Disk)
    requires Plays(p, d, events, d') && events != []
    ensures
      var n := |events| - 1;
      Plays(p, d, events[..n], mid) && Does(p, mid, events[n], d') && Clean(events[..n])
  {
    hide Does, Fails;
    var n := |events| - 1;
    mid :| Plays(p, d, events[..n], mid) && Does(p, mid, events[n], d');
    if n > 0 { assert events[..n][n - 1] == events[n - 1]; }
  }

  lemma PlaysNothing(p: Platform, d: Disk, d': Disk)
    requires Plays(p, d, [], d')
    ensures d' == d
  {
  }

  /** What happened first, then what happened next. */
  lemma {:induction false} PlaysMore(p: Platform, d: Disk, events: seq<Event>, mid: Disk, more: seq<Event>, d': Disk)
    requires Plays(p, d, events, mid) && Clean(events) && Plays(p, mid, more, d')
    ensures Plays(p, d, events + more, d') && (Clean(events + more) <==> Clean(more))
    decreases |more|
  {
    hide Does, Accepted, Fails, Plays;
    if more == [] {
      assert events + more == events;
      PlaysNothing(p, mid, d');
    } else {
      var n := |more| - 1;
      var last := PlaysLast(p, mid, more, d');
      PlaysMore(p, d, events, mid, more[..n], last);
      PlaysOne(p, d, events + more[..n], last, more[n], d');
      assert events + more == (events + more[..n]) + [more[n]];
    }
  }

  /** Events, what the file system said of them, and the blame, carried over what came before. */
  lemma AndThen(p: Platform, fs: FileSystem, from: nat, d: Disk, events: seq<Event>, mid: Disk, more: seq<Event>, d': Disk,
                error: Option<int>, sequence: nat)
    requires Plays(p, d, events, mid) && Clean(events) && Plays(p, mid, more, d')
    requires AllTold(fs, from, events) && AllTold(fs, from + |events|, more)
    requires error.Some? ==> Blamed(fs, from + |events|, more, error.value, sequence)
    ensures Plays(p, d, events + more, d') && (Clean(events + more) <==> Clean(more))
    ensures Accepted(events + more) == Accepted(events) + Accepted(more)
    ensures AllTold(fs, from, events + more) && (error.Some? ==> Blamed(fs, from, events + more, error.value, sequence))
  {
    hide Plays, Accepted, AllTold, Blamed, Clean;
    PlaysMore(p, d, events, mid, more, d');
    AcceptedMore(events, more);
    ToldMore(fs, from, events, more);
    if error.Some? { BlamedLater(fs, from, events, more, error.value, sequence); }
  }

  lemma NothingDone(p: Platform, d: Disk)
    ensures Does(p, d, Exhausted, d)
  {
  }

  lemma NoEvents(p: Platform, d: Disk)
    ensures Plays(p, d, [], d) && Clean([]) && Accepted([]) == []
  {
  }

  /** `logState` with the fields of the store the writer touches. */
  class LogWriter {
    const p: Platform
    const segmentSize: nat
    var disk: Disk               // the directory, and the history it stands for
    var offset: nat              // end of the open segment
    var sequence: uint64         // sequence of the last applied record
    var failure: Option<int>     // the latched error
    var applied: seq<Applied>    // what has been applied to the shards, in order
    var calls: nat               // answers the file system has given so far

    /** Holds even while an error is on its way to the latch. */
    ghost predicate Sound()
      reads this
    {
      segmentSize > HEADER_SIZE && LogOk(p, disk) && sequence <= disk.durable
    }

    /** Nothing failed: the open segment ends with the last applied record. */
    ghost predicate Ready()
      reads this
    {
      && Sound() && disk.tail == [] && sequence == disk.durable == |disk.history|
      && LastName(disk) in disk.dir.segments && offset == |disk.dir.segments[LastName(disk)]|
    }

    ghost predicate Valid()
      reads this
    {
      Sound() && (failure.None? ==> Ready())
    }

    /** The writer of a store that has recovered this directory, whatever sizes its
        segments were written under. */
    constructor (p: Platform, segmentSize: nat, disk: Disk)
      requires segmentSize > HEADER_SIZE
      requires LogOk(p, disk) && disk.tail == [] && disk.durable == |disk.history|
      ensures Valid() && failure.None? && this.disk == disk && sequence == disk.durable && applied == []
      ensures this.p == p && this.segmentSize == segmentSize
    {
      LastFileSize(p, disk);
      this.p, this.segmentSize, this.disk := p, segmentSize, disk;
      offset, sequence := |disk.dir.segments[LastName(disk)]|, disk.durable;
      failure, applied, calls := None, [], 0;
    }

    /** `latch`: the first error wins. */
    method Latch(error: int) returns (latched: int)
      modifies this`failure
      ensures failure == Some(latched)
      ensures latched == if old(failure).Some? then old(failure).value else error
    {
      if failure.None? { failure := Some(error); }
      latched := failure.value;
    }

    /** `rollSegment` to the sequence after the last applied one. */
    method RollSegment(fs: FileSystem) returns (error: Option<int>, ghost event: Event)
      requires Ready() && sequence < MAX_SEQUENCE
      modifies this`disk, this`offset, this`calls
      ensures Sound() && disk.history == old(disk.history) && disk.durable == old(disk.durable)
      ensures Does(p, old(disk), event, disk) && GrownWithin(old(disk), disk, segmentSize)
      ensures if error.None? then event.Rolled? else event.RollFailed?
      ensures Told(fs, old(calls), event) && calls == old(calls) + 1
      ensures error.Some? ==> error.value == ErrorOf(fs, old(calls), event)
      ensures error.None? ==> Ready() && disk == Roll(old(disk)) && offset == HEADER_SIZE
    {
      hide LogOk, GrownWithin;
      var outcome := fs.roll(calls);
      calls := calls + 1;
      ghost var before := disk;
      LogShape(p, before);
      GrownSame(before, segmentSize);
      event := match outcome case Rolled => Event.Rolled case RollFailed(installed, _) => Event.RollFailed(installed);
      if outcome.Rolled? || outcome.installed {
        RollOk(p, before);
        LogShape(p, Roll(before));
        RollGrown(p, before, segmentSize);
        disk := Roll(disk);
      }
      if outcome.RollFailed? { return Some(outcome.error), event; }
      offset := HEADER_SIZE;
      error := None;
    }

    /** How many requests the next round takes: as long as the segment has not passed
        its size, and the sequence space lasts. */
    method PlanRound(requests: seq<Op>, first: nat) returns (last: nat)
      requires first < |requests| && sequence < MAX_SEQUENCE
      requires offset <= HEADER_SIZE || offset + RecordSize(requests[first]) <= segmentSize
      requires HEADER_SIZE < segmentSize
      ensures first < last <= |requests| && sequence + (last - first) <= MAX_SEQUENCE
      ensures offset + TotalSize(requests[first..last - 1]) <= segmentSize
      ensures
        || last == |requests| || sequence + (last - first) == MAX_SEQUENCE
        || offset + TotalSize(requests[first..last]) > segmentSize
    {
      var size := 0;
      last := first;
      while last < |requests|
        invariant first <= last <= |requests| && sequence + (last - first) <= MAX_SEQUENCE
        invariant size == TotalSize(requests[first..last])
        invariant last > first ==> offset + TotalSize(requests[first..last - 1]) <= segmentSize
        invariant last == first ==> offset <= segmentSize
      {
        if last - first >= MAX_SEQUENCE - sequence { break; }
        if last > first && offset + size > segmentSize { break; }
        assert requests[first..last + 1] == requests[first..last] + [requests[last]];
        TotalSizeLast(requests[first..last], requests[last]);
        size := size + RecordSize(requests[last]);
        last := last + 1;
        assert requests[first..last - 1] == requests[first..last][..last - 1 - first];
      }
    }

    /** The payload of a round: record `i` is stamped with the `i`-th next sequence. */
    method EncodeRound(round: seq<Op>) returns (payload: Bytes)
      requires AllEncodable(round) && sequence + |round| <= MAX_SEQUENCE
      ensures payload == EncodeOps(p, sequence, round)
    {
      hide EncodeRecord, Encodable;
      payload := [];
      for i := 0 to |round|
        invariant payload == EncodeOps(p, sequence, round[..i])
      {
        assert round[..i + 1] == round[..i] + [round[i]];
        EncodeOpsAppend(p, sequence, round[..i], [round[i]]);
        EncodeOpsSingle(p, sequence + i, round[i]);
        payload := AppendRecord(p, payload, sequence + i + 1, round[i]);
      }
      assert round[..|round|] == round;
    }

    /** Apply a written round record by record and answer each caller. */
    method ApplyRound(round: seq<Op>) returns (replies: seq<Reply>)
      requires sequence + |round| <= MAX_SEQUENCE
      modifies this`sequence, this`applied
      ensures sequence == old(sequence) + |round|
      ensures applied == old(applied) + Stamped(old(sequence), round)
      ensures |replies| == |round| && forall i :: 0 <= i < |replies| ==> replies[i].Done?
    {
      replies := [];
      ghost var base: nat := sequence;
      for i := 0 to |round|
        invariant sequence == base + i
        invariant applied == old(applied) + Stamped(base, round[..i])
        invariant |replies| == i && forall j :: 0 <= j < i ==> replies[j].Done?
      {
        StampedLast(base, round, i);
        sequence := sequence + 1;
        applied := applied + [Applied(sequence, round[i])];
        replies := replies + [Done];
      }
      assert round[..|round|] == round;
    }

    /** One write. A failed or short one may leave any part of its bytes behind; none
        of its records is then applied. */
    method WriteRound(round: seq<Op>, fs: FileSystem) returns (replies: seq<Reply>, error: Option<int>, ghost event: Event)
      requires Ready() && round != [] && AllEncodable(round) && sequence + |round| <= MAX_SEQUENCE
      requires offset + TotalSize(round[..|round| - 1]) <= segmentSize
      modifies this`disk, this`offset, this`sequence, this`applied, this`calls
      ensures Sound() && disk.history == old(disk.history) + round && disk.firsts == old(disk.firsts)
      ensures Does(p, old(disk), event, disk) && GrownWithin(old(disk), disk, segmentSize)
      ensures if error.None? then event == Wrote(round) else event.Cut?
      ensures Told(fs, old(calls), event) && calls == old(calls) + 1
      ensures error.Some? ==> error.value == ErrorOf(fs, old(calls), event)
      ensures error.None? ==>
        && Ready() && sequence == old(sequence) + |round|
        && applied == old(applied) + Stamped(old(sequence), round)
        && |replies| == |round| && forall i :: 0 <= i < |replies| ==> replies[i].Done?
      ensures error.Some? ==> sequence == old(sequence) && applied == old(applied) && replies == []
      ensures error.Some? ==> event.cut == fs.write(old(calls)).cut || event.cut == |EncodeOps(p, old(sequence), round)|
    {
      hide LogOk, GrownWithin, EncodeOps, AllEncodable, TotalSize, WholeRecords, TornPart;
      var payload := EncodeRound(round);
      var outcome := fs.write(calls);
      calls := calls + 1;
      ghost var before := disk;
      var cut := if outcome.Written? || outcome.cut > |payload| then |payload| else outcome.cut;
      LogShape(p, before);
      LastFileSize(p, before);
      AppendCutOk(p, before, round, cut);
      LogShape(p, AppendCut(p, before, round, cut));
      AppendGrown(p, before, round, cut, segmentSize);
      event := if outcome.Written? then Wrote(round) else Cut(round, cut);
      disk := AppendCut(p, disk, round, cut);
      if outcome.WriteFailed? { return [], Some(outcome.error), event; }
      NothingCut(p, before.durable, round);
      offset := offset + |payload|;
      replies := ApplyRound(round);
      error := None;
    }

    /** The roll a turn of `writeBatch` starts with, if the next record would not fit. */
    method MakeRoom(next: Op, fs: FileSystem) returns (error: Option<int>, ghost events: seq<Event>)
      requires Ready() && sequence < MAX_SEQUENCE
      modifies this`disk, this`offset, this`calls
      ensures Sound() && disk.history == old(disk.history) && disk.durable == old(disk.durable)
      ensures Plays(p, old(disk), events, disk) && GrownWithin(old(disk), disk, segmentSize)
      ensures Accepted(events) == [] && (error.None? <==> Clean(events))
      ensures AllTold(fs, old(calls), events) && calls == old(calls) + |events|
      ensures error.Some? ==> Blamed(fs, old(calls), events, error.value, sequence)
      ensures events != [] ==> old(offset) > HEADER_SIZE && old(offset) + RecordSize(next) > segmentSize
      ensures error.None? ==>
        && Ready() && (offset <= HEADER_SIZE || offset + RecordSize(next) <= segmentSize)
        && disk == if old(offset) > HEADER_SIZE && old(offset) + RecordSize(next) > segmentSize then Roll(old(disk)) else old(disk)
    {
      hide LogOk, GrownWithin, Does;
      error, events := None, [];
      NoEvents(p, disk);
      LogShape(p, disk);
      GrownSame(disk, segmentSize);
      ghost var before := disk;
      if offset > HEADER_SIZE && offset + RecordSize(next) > segmentSize {
        ghost var event;
        error, event := RollSegment(fs);
        PlaysOne(p, before, [], before, event, disk);
        events := [] + [event];
      }
    }

    /** One turn of `writeBatch`'s loop: roll if the next record would not fit, then
        write as many requests as the plan allows. */
    method Turn(requests: seq<Op>, first: nat, fs: FileSystem)
      returns (last: nat, replies: seq<Reply>, error: Option<int>, ghost events: seq<Event>)
      requires Ready() && AllEncodable(requests) && first < |requests|
      modifies this`disk, this`offset, this`sequence, this`applied, this`calls
      ensures Sound() && first <= last <= |requests| && GrownWithin(old(disk), disk, segmentSize)
      ensures Plays(p, old(disk), events, disk) && events != [] && (error.None? <==> Clean(events))
      ensures AllTold(fs, old(calls), events) && (error.None? ==> calls == old(calls) + |events|)
      ensures error.Some? ==> Blamed(fs, old(calls), events, error.value, sequence)
      ensures error.None? ==>
        var rolls := old(offset) > HEADER_SIZE && old(offset) + RecordSize(requests[first]) > segmentSize;
        old(disk).durable < MAX_SEQUENCE && disk.firsts == if rolls then Roll(old(disk)).firsts else old(disk).firsts
      ensures error.None? ==>
        && Ready() && first < last && sequence == old(sequence) + (last - first)
        && Accepted(events) == requests[first..last]
        && disk.history == old(disk.history) + requests[first..last]
        && applied == old(applied) + Stamped(old(sequence), requests[first..last])
        && |replies| == last - first && forall i :: 0 <= i < |replies| ==> replies[i].Done?
      ensures error.Some? ==>
        && sequence == old(sequence) && applied == old(applied) && replies == [] && Accepted(events) == []
        && disk.history == old(disk.history) + requests[first..last]
    {
      hide LogOk, GrownWithin, Encodable, TotalSize, Stamped, Does, Told, AllTold, Blamed, ErrorOf, Plays, Accepted, Fails;
      last, replies := first, [];
      ghost var before, event := disk, Exhausted;
      LogShape(p, before);
      if sequence == MAX_SEQUENCE {
        NoEvents(p, before);
        GrownSame(before, segmentSize);
        PlaysOne(p, before, [], before, Exhausted, before) by { assert Does(p, before, Exhausted, before) by { NothingDone(p, before); } }
        Exhaustion(fs, calls);
        return last, replies, Some(EXHAUSTED), [] + [Exhausted];
      }
      error, events := MakeRoom(requests[first], fs);
      if error.Some? {
        assert events != [];
        return;
      }
      ghost var mid := disk;
      last := PlanRound(requests, first);
      var round := requests[first..last];
      assert round[..|round| - 1] == requests[first..last - 1];
      ghost var call := calls;
      replies, error, event := WriteRound(round, fs);
      OneMore(fs, old(calls), events, call, event, if error.Some? then error.value else 0, sequence);
      LogShape(p, mid);
      LogShape(p, disk);
      GrownTwice(before, mid, disk, segmentSize);
      PlaysOne(p, before, events, mid, event, disk);
      events := events + [event];
    }

    /** The loop of `writeBatch`: turn after turn until all is written or one fails. */
    method WriteAll(requests: seq<Op>, fs: FileSystem)
      returns (written: nat, replies: seq<Reply>, error: Option<int>, ghost events: seq<Event>)
      requires Ready() && AllEncodable(requests)
      modifies this`disk, this`offset, this`sequence, this`applied, this`calls
      ensures Sound() && GrownWithin(old(disk), disk, segmentSize)
      ensures Plays(p, old(disk), events, disk) && (error.None? <==> Clean(events))
      ensures AllTold(fs, old(calls), events)
      ensures error.Some? ==> Blamed(fs, old(calls), events, error.value, sequence) && written < |requests|
      ensures written <= |requests| && sequence == old(sequence) + written && Accepted(events) == requests[..written]
      ensures applied == old(applied) + Stamped(old(sequence), requests[..written])
      ensures old(disk.history) + requests[..written] <= disk.history
      ensures error.None? ==> Ready() && written == |requests| && disk.history == old(disk.history) + requests
      ensures |replies| == written && forall i :: 0 <= i < written ==> replies[i].Done?
    {
      hide LogOk, GrownWithin, AllEncodable, Stamped, Plays, Accepted, Fails, Blamed, AllTold;
      NothingTold(fs, calls);
      written, replies, error, events := 0, [], None, [];
      ghost var from := calls;
      ghost var start, before := sequence, disk;
      StampedNothing(start);
      NoEvents(p, before);
      LogShape(p, before);
      GrownSame(before, segmentSize);
      assert requests[..0] == [];
      while written < |requests|
        invariant written <= |requests| && Ready()
        invariant Shape(disk) && GrownWithin(before, disk, segmentSize)
        invariant Plays(p, before, events, disk) && Clean(events) && Accepted(events) == requests[..written]
        invariant AllTold(fs, from, events) && calls == from + |events|
        invariant sequence == start + written && disk.history == before.history + requests[..written]
        invariant applied == old(applied) + Stamped(start, requests[..written])
        invariant |replies| == written && forall i :: 0 <= i < written ==> replies[i].Done?
        decreases |requests| - written
      {
        ghost var mid := disk;
        var last, done, failed, more := Turn(requests, written, fs);
        LogShape(p, disk);
        GrownTwice(before, mid, disk, segmentSize);
        AndThen(p, fs, from, before, events, mid, more, disk, failed, sequence);
        events := events + more;
        if failed.Some? {
          assert requests[..written] + [] == requests[..written];
          error := failed;
          return;
        }
        Split(requests, 0, written, last);
        StampedAppend(start, requests[..written], requests[written..last]);
        replies := replies + done;
        written := last;
      }
      assert requests[..written] == requests;
    }

    /** `writeBatch`. Every request gets exactly one reply. Those that succeed form a
        prefix of the batch; each of them is in the log and applied under the same
        sequence. If any fails, the store is latched and all the rest get the
        latched error; a store already latched writes and applies nothing. It latches only
        for what the file system answered, or at the end of the sequence space. Every
        segment that grows stays within the size without its last record. */
    method WriteBatch(requests: seq<Op>, fs: FileSystem) returns (replies: seq<Reply>, ghost events: seq<Event>)
      requires Valid() && AllEncodable(requests)
      modifies this
      ensures Valid() && GrownWithin(old(disk), disk, segmentSize)
      ensures |replies| == |requests| && old(sequence) <= sequence <= old(sequence) + |requests|
      ensures
        var accepted := sequence - old(sequence);
        && (forall i :: 0 <= i < accepted ==> replies[i].Done?)
        && (forall i :: accepted <= i < |replies| ==> failure.Some? && replies[i] == Failed(failure.value))
        && applied == old(applied) + Stamped(old(sequence), requests[..accepted])
        && Plays(p, old(disk), events, disk) && Accepted(events) == requests[..accepted]
        && (old(failure).None? ==> disk.history[..sequence] == old(disk.history) + requests[..accepted])
      ensures old(failure).Some? ==>
        events == [] && disk == old(disk) && sequence == old(sequence) && applied == old(applied) && failure == old(failure)
      ensures old(failure).None? ==> (failure.None? <==> Clean(events))
      ensures AllTold(fs, old(calls), events)
      ensures old(failure).None? && failure.Some? ==> Blamed(fs, old(calls), events, failure.value, sequence)
      ensures old(failure).None? && failure.None? ==> sequence == old(sequence) + |requests|
      ensures old(failure).None? && NeverFails(fs) ==>
        failure.None? || (sequence == MAX_SEQUENCE && old(sequence) + |requests| > MAX_SEQUENCE)
      ensures old(failure).None? && failure.None? ==> disk.history == old(disk.history) + requests
    {
      hide LogOk, GrownWithin, AllEncodable, Stamped, Plays, Accepted, Blamed, AllTold;
      if failure.Some? {
        NothingTold(fs, calls);
        StampedNothing(sequence);
        NoEvents(p, disk);
        LogShape(p, disk);
        GrownSame(disk, segmentSize);
        assert requests[..0] == [];
        replies := RespondAll(|requests|, failure.value);
        return replies, [];
      }
      var written, done, failed;
      written, done, failed, events := WriteAll(requests, fs);
      replies := done;
      if failed.Some? {
        if NeverFails(fs) { OnlyExhaustion(fs, old(calls), events, failed.value, sequence); }
        var error := Latch(failed.value);
        var rest := RespondAll(|requests| - written, error);
        replies := done + rest;
      }
    }

    /** `respondAll`. */
    static method RespondAll(count: nat, error: int) returns (replies: seq<Reply>)
      ensures |replies| == count && forall i :: 0 <= i < count ==> replies[i] == Failed(error)
    {
      replies := [];
      for i := 0 to count
        invariant |replies| == i && forall j :: 0 <= j < i ==> replies[j] == Failed(error)
      {
        replies := replies + [Failed(error)];
      }
    }
  }
}
