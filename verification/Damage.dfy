/** What recovery makes of bytes the store did not write. */
module Damage {
  import opened Base
  import opened LittleEndian
  import opened Frames
  import opened Replay
  import opened Listing
  import opened Slices
  import opened WalCodec
  import opened SegmentRecovery
  import opened Recovery
  import opened DiskLayout
  import opened RecoveryCorrectness
  import SC = SnapshotCodec

  // ----- the header -----

  /** The first thing wrong with a header decides, and the offset says where it is. */
  lemma DamagedHeader(p: Platform, magic: Bytes, version: uint16, flags: uint16, rest: Bytes, name: uint64, final: bool, through: uint64,
                      previous: uint64)
    requires |magic| == 4
    ensures
      var w := WalkSegment(p, magic + Put16(version) + Put16(flags) + rest, name, final, through, previous);
      if magic != [0x43, 0x57, 0x41, 0x4C] then w == Refused(UnknownMagic, 0)
      else if version != 1 then w == Refused(UnsupportedVersion, 4)
      else if flags != 0 then w == Refused(UnsupportedFlags, 6)
      else w.Refused? ==> w.at >= 8
  {
    hide WalkFrom;
    var file := magic + Put16(version) + Put16(flags) + rest;
    RoundTrip16(version);
    RoundTrip16(flags);
    assert file[..4] == magic && file[4..6] == Put16(version) && file[6..8] == Put16(flags);
    if HeaderFault(file).None? { RefusedBehind(p, file, name, final, through, HEADER_SIZE, previous, true); }
  }

  lemma ShortHeader(p: Platform, file: Bytes, name: uint64, final: bool, through: uint64, previous: uint64)
    requires |file| < 8
    ensures WalkSegment(p, file, name, final, through, previous) == Refused(UnexpectedEof, 0)
  {
  }

  lemma {:induction false} RefusedBehind(p: Platform, file: Bytes, name: uint64, final: bool, through: uint64, offset: nat, sequence: uint64,
                                         first: bool)
    requires offset <= |file|
    ensures
      var w := WalkFrom(p, file, name, final, through, offset, sequence, first);
      w.Refused? ==> w.at >= offset
    decreases |file| - offset
  {
    hide ReadFrame, Judge;
    if offset < |file| {
      match ReadFrame(p, file, offset, BODY_FIXED_SIZE)
      case Short | Overrun =>
      case Corrupt(_) =>
      case Framed(body, end) =>
        match Judge(body, name, through, sequence, first)
        case Accept(_) => RefusedBehind(p, file, name, final, through, end, sequence + 1, false);
        case Reject(_) =>
        case Beyond =>
    }
  }

  // ----- one record -----

  /** A checksum failure is forgiven only at the very end of the final segment, where it
      is what a cut write may leave. Anywhere else the segment is refused, at the damaged
      record. */
  lemma BadChecksum(p: Platform, base: nat, ops: seq<Op>, body: Bytes, sum: uint32, rest: Bytes, name: uint64, final: bool, through: uint64)
    requires AllEncodable(ops) && base + |ops| <= through <= MAX_SEQUENCE && (ops != [] ==> name == base + 1)
    requires Frames.Fits(body) && |body| >= BODY_FIXED_SIZE && sum != p.crc(body)
    ensures
      var whole := SegmentFile(p, base, ops);
      WalkSegment(p, whole + (BadFrame(body, sum) + rest), name, final, through, base)
        == if final && rest == [] then Walked(ops, |whole|, true) else Refused(ChecksumMismatch, |whole|)
  {
    hide EncodeOps, ReadFrame, BadFrame, SegmentHeader;
    var whole := SegmentFile(p, base, ops);
    var bad := BadFrame(body, sum);
    var file := whole + (bad + rest);
    WalkWritten(p, base, ops, bad + rest, name, final, through);
    assert file[|whole|..|whole| + |bad|] == bad;
    ReadBad(p, file, |whole|, body, sum, BODY_FIXED_SIZE);
    assert ops + [] == ops;
  }

  /** A length prefix that cannot be read, is too small for a record, or runs past the end:
      the final segment is cut there, whatever lies behind; any other is refused. */
  lemma BadLength(p: Platform, base: nat, ops: seq<Op>, tail: Bytes, name: uint64, final: bool, through: uint64)
    requires AllEncodable(ops) && base + |ops| <= through <= MAX_SEQUENCE && (ops != [] ==> name == base + 1)
    requires tail != [] && (|tail| < 4 || Get32(tail[..4]) < 23 || 4 + Get32(tail[..4]) > |tail|)
    ensures
      var whole := SegmentFile(p, base, ops);
      WalkSegment(p, whole + tail, name, final, through, base)
        == if final then Walked(ops, |whole|, true) else Refused(UnexpectedEof, |whole|)
  {
    hide EncodeOps, SegmentHeader, Decode, Encode;
    var whole := SegmentFile(p, base, ops);
    var file := whole + tail;
    WalkWritten(p, base, ops, tail, name, final, through);
    if |tail| >= 4 {
      assert file[|whole|..|whole| + 4] == tail[..4];
      Canonical32(tail[..4]);
      ReadBadLength(p, file, |whole|, Get32(tail[..4]), BODY_FIXED_SIZE);
    }
    assert ops + [] == ops;
  }

  /** What is said of the fields of a record that is whole and has the right checksum:
      the first thing wrong decides. */
  lemma JudgeTable(code: byte, keyLength: uint16, deadline: int64, sequence: uint64, rest: Bytes,
                   name: uint64, through: uint64, last: uint64, first: bool)
    ensures
      var v := Judge(FixedPart(code, keyLength, deadline, sequence) + rest, name, through, last, first);
      if sequence > through then v == Beyond
      else if |rest| < keyLength then v == Reject(KeyTooLong)
      else if sequence != last + 1 then v == Reject(SequenceGap)
      else if first && sequence != name then v == Reject(WrongFirstSequence)
      else if code == 1 then v == Accept(Set(rest[..keyLength], rest[keyLength..], deadline))
      else if code != 2 then v == Reject(UnknownOperation)
      else if deadline != 0 then v == Reject(DeleteWithDeadline)
      else if |rest| > keyLength then v == Reject(DeleteWithValue)
      else v == Accept(Delete(rest))
  {
    hide ReadFields, FixedPart;
    FieldsOfEncoded(code, keyLength, deadline, sequence, rest);
    if |rest| == keyLength { assert rest[..keyLength] == rest; }
  }

  /** A record with a fault of that kind refuses the segment, final or not, where it starts. */
  lemma BadFields(p: Platform, base: nat, ops: seq<Op>, body: Bytes, rest: Bytes, name: uint64, final: bool, through: uint64)
    requires AllEncodable(ops) && base + |ops| <= through <= MAX_SEQUENCE && (ops != [] ==> name == base + 1)
    requires Frames.Fits(body) && |body| >= BODY_FIXED_SIZE && Judge(body, name, through, base + |ops|, ops == []).Reject?
    ensures
      var whole := SegmentFile(p, base, ops);
      WalkSegment(p, whole + (EncodeFrame(p, body) + rest), name, final, through, base)
        == Refused(Judge(body, name, through, base + |ops|, ops == []).fault, |whole|)
  {
    hide EncodeOps, ReadFrame, EncodeFrame, SegmentHeader, Judge;
    var whole := SegmentFile(p, base, ops);
    var frame := EncodeFrame(p, body);
    var file := whole + (frame + rest);
    WalkWritten(p, base, ops, frame + rest, name, final, through);
    assert file[|whole|..|whole| + |frame|] == frame;
    ReadWritten(p, file, |whole|, body, BODY_FIXED_SIZE);
  }

  // ----- the log -----

  /** The directory with segment `j` replaced. */
  function Overwritten(d: Disk, j: nat, file: Bytes): Directory
    requires j < |d.firsts|
  {
    d.dir.(segments := d.dir.segments[d.firsts[j] := file])
  }

  /** The first `n` records of segment `j`, then a damaged one, then anything. */
  function DamagedFile(p: Platform, d: Disk, j: nat, n: nat, body: Bytes, sum: uint32, rest: Bytes): Bytes
    requires Shape(d) && j < |d.firsts| && n <= |OpsOf(d, j)| && Frames.Fits(body)
  {
    Extent(d, j);
    Prefixed(d, j, n);
    SegmentFile(p, Before(d.firsts[j]), OpsOf(d, j)[..n]) + (BadFrame(body, sum) + rest)
  }

  lemma Prefixed(d: Disk, j: nat, n: nat)
    requires Shape(d) && j < |d.firsts| && n <= |OpsOf(d, j)|
    ensures AllEncodable(OpsOf(d, j)[..n]) && Before(d.firsts[j]) + n <= d.durable <= MAX_SEQUENCE
  {
    hide Encodable, StrictlyAscending;
    Extent(d, j);
    var ops := OpsOf(d, j)[..n];
    assert forall i :: 0 <= i < n ==> ops[i] == d.history[Before(d.firsts[j]) + i];
  }

  lemma Ordered(d: Disk, i: nat, j: nat)
    requires Shape(d) && i < j < |d.firsts|
    ensures d.firsts[i] < d.firsts[j]
  {
  }

  /** The walk from segment `i` over a log with a damaged record in segment `j`. */
  lemma {:induction false} WalkToDamage(p: Platform, d: Disk, i: nat, j: nat, n: nat, body: Bytes, sum: uint32, rest: Bytes)
    requires LogOk(p, d) && i <= j < |d.firsts| && n <= |OpsOf(d, j)|
    requires Frames.Fits(body) && |body| >= BODY_FIXED_SIZE && sum != p.crc(body)
    requires Present(Overwritten(d, j, DamagedFile(p, d, j, n, body, sum, rest)), d.firsts)
    ensures Before(d.firsts[i]) <= Before(d.firsts[j]) + n <= d.durable <= |d.history|
    ensures
      var dir := Overwritten(d, j, DamagedFile(p, d, j, n, body, sum, rest));
      var w := WalkSegments(p, dir, d.firsts, i, Before(d.firsts[i]), MAX_SEQUENCE, true);
      if j + 1 == |d.firsts| && rest == []
      then && w.Walked? && w.torn && w.ops == d.history[Before(d.firsts[i])..Before(d.firsts[j]) + n]
           && w.offset + |BadFrame(body, sum)| == |dir.segments[d.firsts[j]]|
      else w.Refused? && w.fault == ChecksumMismatch
    decreases j - i
  {
    hide SegmentFile, WalkSegment, TornTail, AllEncodable, Encodable, Lists, BadFrame, StrictlyAscending, FileOf;
    SegmentFacts(p, d, i);
    Prefixed(d, j, n);
    Extent(d, j);
    if i == j {
      BadChecksum(p, Before(d.firsts[j]), OpsOf(d, j)[..n], body, sum, rest, d.firsts[j], j + 1 == |d.firsts|, MAX_SEQUENCE);
      assert OpsOf(d, j)[..n] == d.history[Before(d.firsts[j])..Before(d.firsts[j]) + n];
    } else {
      Extent(d, i);
      Ordered(d, i, j);
      WalkIntact(p, Before(d.firsts[i]), OpsOf(d, i), d.firsts[i], false, MAX_SEQUENCE);
      WalkToDamage(p, d, i + 1, j, n, body, sum, rest);
      Split(d.history, Before(d.firsts[i]), EndOf(d, i), Before(d.firsts[j]) + n);
    }
  }

  /** The first sequence recovery needs from the log. */
  function Required(d: Disk): int {
    if d.snaps.Keys == {} then 1 else if Largest(d.snaps.Keys) == MAX_SEQUENCE then MAX_SEQUENCE else Largest(d.snaps.Keys) + 1
  }

  /** The last sequence the newest snapshot needs the log to reach. */
  function Needed(d: Disk): nat {
    if d.snaps.Keys == {} then 0
    else
      var newest := Largest(d.snaps.Keys);
      if 0 <= newest <= MAX_SEQUENCE && newest in d.snaps && |d.snaps[newest].sequences| > 0 then Highest(d.snaps[newest].sequences) else 0
  }

  /** Recovery reads segment `j`: it is the last one, or the next one starts past the
      first sequence required. */
  predicate IsRead(d: Disk, j: nat)
    requires j < |d.firsts|
  {
    j + 1 == |d.firsts| || d.snaps.Keys == {} || d.firsts[j + 1] > Required(d)
  }

  /** What recovery has loaded and where it starts, on a directory whose segment `j` has
      been overwritten. */
  lemma LoadAndStart(p: Platform, d: Disk, shards: nat, now: int, j: nat, file: Bytes) returns (state: SnapshotState, image: Image, start: nat)
    requires DiskOk(p, d, now) && shards > 0 && j < |d.firsts| && IsRead(d, j)
    ensures Present(d.dir, d.firsts) && SegmentNames(Overwritten(d, j, file)) == d.firsts && Present(Overwritten(d, j, file), d.firsts)
    ensures ValidState(state, shards) && LoadSnapshot(p, Overwritten(d, j, file), shards, None) == Load(state, image)
    ensures start <= j && d.firsts[0] <= (if state.Loaded? then FirstRequired(state.lowest) else 1)
    ensures start == if state.Loaded? then LastAtMost(d.firsts, FirstRequired(state.lowest)) else 0
    ensures state.NoSnapshot? ==> d.firsts[0] == 1
    ensures (if state.Loaded? then state.highest else 0) == Needed(d)
    ensures state.Loaded? ==>
      && d.snaps.Keys != {} && Largest(d.snaps.Keys) in d.snaps
      && var s := d.snaps[Largest(d.snaps.Keys)];
         && |s.sequences| > 0 && state == StateOf(s.sequences, shards) && image == ImageOf(p, shards, None, s.items)
         && Highest(s.sequences) <= |d.history| <= MAX_SEQUENCE && Faithful(p, s, d.history, now)
         && Before(d.firsts[start]) <= Lowest(s.sequences)
    ensures state.NoSnapshot? ==> image == map[]
  {
    hide LoadSnapshot, SC.WellFormed, SC.EncodeSnapshot, KeyAt, ImageOf, Lowest, Highest, Faithful, SegmentFile, LastAtMost, Largest, AllEncodable,
         TornTail, FileOf;
    var dir := Overwritten(d, j, file);
    LoadNewest(p, d, shards, None, now);
    SameSnapshots(p, d.dir, dir, shards);
    NamesOf(p, d);
    SameListing(d, j, file);
    state, image := LoadSnapshot(p, d.dir, shards, None).state, LoadSnapshot(p, d.dir, shards, None).image;
    if d.snaps.Keys == {} {
      start := 0;
    } else {
      StartOf(d);
      start := LastAtMost(d.firsts, FirstRequired(state.lowest));
      StartAtMost(d.firsts, FirstRequired(state.lowest), start, j);
    }
  }

  lemma SameSnapshots(p: Platform, dir: Directory, dir': Directory, shards: nat)
    requires shards > 0 && dir.snapshots == dir'.snapshots
    ensures LoadSnapshot(p, dir, shards, None) == LoadSnapshot(p, dir', shards, None)
  {
    hide SC.ReadSnapshot, ImageOf, SC.WellFormed;
  }

  lemma SameListing(d: Disk, j: nat, file: Bytes)
    requires j < |d.firsts| && Lists(d.firsts, d.dir.segments.Keys)
    ensures SegmentNames(Overwritten(d, j, file)) == d.firsts && Present(Overwritten(d, j, file), d.firsts)
  {
    var dir := Overwritten(d, j, file);
    assert d.firsts[j] in d.firsts;
    assert dir.segments.Keys == d.dir.segments.Keys;
    AscendingIsUnique(d.firsts, dir.segments.Keys);
  }

  lemma StartAtMost(names: seq<int>, bound: int, start: nat, j: nat)
    requires StrictlyAscending(names) && |names| > 0 && names[0] <= bound && start == LastAtMost(names, bound)
    requires j < |names| && (j + 1 == |names| || names[j + 1] > bound)
    ensures start <= j
  {
  }

  /** Damage before the end of the log: the store does not open. Take any directory of a
      store and damage any record of any segment that recovery reads; if anything follows
      it, in its segment or in a later one, recovery refuses. */
  lemma DamageInsideRefuses(p: Platform, d: Disk, shards: nat, now: int, j: nat, n: nat, body: Bytes, sum: uint32, rest: Bytes)
    requires DiskOk(p, d, now) && shards > 0 && j < |d.firsts| && n <= |OpsOf(d, j)| && IsRead(d, j)
    requires Frames.Fits(body) && |body| >= BODY_FIXED_SIZE && sum != p.crc(body)
    requires j + 1 < |d.firsts| || rest != []
    ensures RecoverLog(p, Overwritten(d, j, DamagedFile(p, d, j, n, body, sum, rest)), shards) == RecoveryRefused(ChecksumMismatch)
  {
    hide LoadSnapshot, KeyAt, ImageOf, Lowest, Highest, Faithful, Fold, WalkSegments, LastAtMost, Largest, AllEncodable, TornTail, SegmentNames,
         DamagedFile, SnapOk, Reaches, Lists, SegmentOk, OpsOf;
    var state, image, start := LoadAndStart(p, d, shards, now, j, DamagedFile(p, d, j, n, body, sum, rest));
    WalkToDamage(p, d, start, j, n, body, sum, rest);
  }

  /** Damage of the very last record is treated like a torn write: the store opens with
      exactly the records before it and cuts the file there, unless the newest snapshot
      needs more of them, and then it does not open. */
  lemma DamageAtTheEndIsCut(p: Platform, d: Disk, shards: nat, now: int, n: nat, body: Bytes, sum: uint32)
    requires DiskOk(p, d, now) && shards > 0 && n <= |OpsOf(d, |d.firsts| - 1)|
    requires Frames.Fits(body) && |body| >= BODY_FIXED_SIZE && sum != p.crc(body)
    ensures
      var j := |d.firsts| - 1;
      var kept := Before(d.firsts[j]) + n;
      var r := RecoverLog(p, Overwritten(d, j, DamagedFile(p, d, j, n, body, sum, [])), shards);
      && kept <= |d.history| <= MAX_SEQUENCE
      && (Needed(d) > kept ==> r == RecoveryRefused(SequenceGap))
      && (Needed(d) <= kept ==>
            && r.Recovered? && r.sequence == kept && Rebuilds(r.image, d.history, kept, now)
            && r.dir == Overwritten(d, j, SegmentFile(p, Before(d.firsts[j]), OpsOf(d, j)[..n])))
  {
    hide LoadSnapshot, KeyAt, ImageOf, Lowest, Highest, Faithful, Fold, WalkSegments, LastAtMost, Largest, AllEncodable, TornTail, SegmentNames,
         SnapOk, Reaches, Lists, SegmentOk, OpsOf, Needed, SegmentFile, BadFrame;
    var j := |d.firsts| - 1;
    var kept := Before(d.firsts[j]) + n;
    Prefixed(d, j, n);
    var file := DamagedFile(p, d, j, n, body, sum, []);
    var state, image, start := LoadAndStart(p, d, shards, now, j, file);
    WalkToDamage(p, d, start, j, n, body, sum, []);
    var whole := SegmentFile(p, Before(d.firsts[j]), OpsOf(d, j)[..n]);
    assert file[..|whole|] == whole;
    if Needed(d) <= kept {
      if state.NoSnapshot? {
        PlainReplay(p, shards, None, d.history, kept, now);
      } else {
        FuzzySnapshot(p, d.snaps[Largest(d.snaps.Keys)], shards, None, d.history, Before(d.firsts[start]), kept, now);
      }
    }
  }
}
