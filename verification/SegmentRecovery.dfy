/** Recovery of one log segment: the byte-level walk of `recoverSegment`. */
module SegmentRecovery {
  import opened Base
  import opened LittleEndian
  import opened Frames
  import opened Slices
  import opened Replay
  import opened WalCodec

  const HEADER_SIZE := 8
  const SEGMENT_MAGIC: Bytes := [0x43, 0x57, 0x41, 0x4C]   // "CWAL"

  /** What a walk over a segment finds: the records it accepts, where it stops,
      and whether what follows is a torn tail to cut off. */
  datatype Walk =
    | Walked(ops: seq<Op>, offset: nat, torn: bool)
    | Refused(fault: Fault, at: nat)

  function SegmentHeader(): (r: Bytes)
    ensures |r| == HEADER_SIZE
  {
    SEGMENT_MAGIC + Put16(FORMAT_VERSION) + Put16(0)
  }

  /** A segment whose records start at `base + 1`. */
  function SegmentFile(p: Platform, base: nat, ops: seq<Op>): Bytes
    requires AllEncodable(ops) && base + |ops| <= MAX_SEQUENCE
  {
    SegmentHeader() + EncodeOps(p, base, ops)
  }

  function HeaderFault(file: Bytes): (r: Option<Walk>)
    ensures if r.Some? then r.value.Refused? else |file| >= HEADER_SIZE
  {
    if |file| < HEADER_SIZE then Some(Refused(UnexpectedEof, 0))
    else if file[..4] != SEGMENT_MAGIC then Some(Refused(UnknownMagic, 0))
    else if Get16(file[4..6]) != FORMAT_VERSION then Some(Refused(UnsupportedVersion, 4))
    else if Get16(file[6..8]) != 0 then Some(Refused(UnsupportedFlags, 6))
    else None
  }

  /** The judgement passed on one intact frame. */
  datatype Verdict = Accept(op: Op) | Beyond | Reject(fault: Fault)

  function Judge(body: Bytes, name: uint64, through: uint64, sequence: uint64, first: bool): (r: Verdict)
    requires |body| >= BODY_FIXED_SIZE
    ensures r.Accept? ==> sequence < through
  {
    var f := ReadFields(body);
    if f.sequence > through then Beyond
    else if f.keyLength > |f.rest| then Reject(KeyTooLong)
    else if sequence == MAX_SEQUENCE || f.sequence != sequence + 1 then Reject(SequenceGap)
    else if first && f.sequence != name then Reject(WrongFirstSequence)
    else
      var key := f.rest[..f.keyLength];
      var value := f.rest[f.keyLength..];
      if f.code == OP_SET then Accept(Set(key, value, f.deadline))
      else if f.code != OP_DELETE then Reject(UnknownOperation)
      else if f.deadline != 0 then Reject(DeleteWithDeadline)
      else if value != [] then Reject(DeleteWithValue)
      else Accept(Delete(key))
  }

  function Prepend(done: seq<Op>, w: Walk): Walk {
    if w.Refused? then w else w.(ops := done + w.ops)
  }

  lemma PrependTwice(a: seq<Op>, b: seq<Op>, w: Walk)
    ensures Prepend(a, Prepend(b, w)) == Prepend(a + b, w)
  {
    assert w.Walked? ==> a + (b + w.ops) == (a + b) + w.ops;
  }

  /** The walk as a recursive definition: decode everything, apply nothing. */
  function WalkFrom(p: Platform, file: Bytes, name: uint64, final: bool, through: uint64,
                    offset: nat, sequence: uint64, first: bool): (w: Walk)
    requires offset <= |file|
    ensures w.Walked? ==> sequence + |w.ops| <= MAX_SEQUENCE && offset <= w.offset <= |file|
    decreases |file| - offset
  {
    if offset == |file| then Walked([], offset, false)
    else match ReadFrame(p, file, offset, BODY_FIXED_SIZE)
      case Short | Overrun =>
        if final then Walked([], offset, true) else Refused(UnexpectedEof, offset)
      case Corrupt(end) =>
        if final && end == |file| then Walked([], offset, true) else Refused(ChecksumMismatch, offset)
      case Framed(body, end) =>
        match Judge(body, name, through, sequence, first)
        case Beyond => Walked([], offset, false)
        case Reject(fault) => Refused(fault, offset)
        case Accept(op) => Prepend([op], WalkFrom(p, file, name, final, through, end, sequence + 1, false))
  }

  function WalkSegment(p: Platform, file: Bytes, name: uint64, final: bool, through: uint64, previous: uint64): (w: Walk)
    ensures w.Walked? ==> previous + |w.ops| <= MAX_SEQUENCE && HEADER_SIZE <= w.offset <= |file|
  {
    match HeaderFault(file)
    case Some(refused) => refused
    case None => WalkFrom(p, file, name, final, through, HEADER_SIZE, previous, true)
  }

  /** What is left in the file: only a torn tail is cut. */
  function FileAfter(file: Bytes, w: Walk): Bytes
    requires w.Walked? ==> w.offset <= |file|
  {
    if w.Walked? && w.torn then file[..w.offset] else file
  }

  // ----- any accepted bytes -----

  lemma JudgeCanonical(body: Bytes, name: uint64, through: uint64, sequence: uint64, first: bool)
    requires |body| >= BODY_FIXED_SIZE && Fits(body)
    requires Judge(body, name, through, sequence, first).Accept?
    ensures
      var op := Judge(body, name, through, sequence, first).op;
      && sequence < through
      && Encodable(op)
      && EncodeBody(sequence + 1, op) == body
      && (first ==> name == sequence + 1)
  {
    var f := ReadFields(body);
    FieldsCanonical(body);
    var op := Judge(body, name, through, sequence, first).op;
    assert f.rest == f.rest[..f.keyLength] + f.rest[f.keyLength..];
    assert op.key + ValueOf(op) == f.rest;
  }

  /** An accepted frame is byte for byte the next record. */
  lemma FrameCanonical(p: Platform, file: Bytes, name: uint64, through: uint64, offset: nat, sequence: uint64, first: bool)
    requires offset <= |file|
    requires ReadFrame(p, file, offset, BODY_FIXED_SIZE).Framed?
    requires Judge(ReadFrame(p, file, offset, BODY_FIXED_SIZE).body, name, through, sequence, first).Accept?
    ensures
      var r := ReadFrame(p, file, offset, BODY_FIXED_SIZE);
      var op := Judge(r.body, name, through, sequence, first).op;
      && sequence < through && (first ==> name == sequence + 1)
      && Encodable(op)
      && file[offset..r.end] == EncodeRecord(p, sequence + 1, op)
  {
    hide EncodeFrame, Judge, EncodeBody, ReadFrame;
    ReadCanonical(p, file, offset, BODY_FIXED_SIZE);
    JudgeCanonical(ReadFrame(p, file, offset, BODY_FIXED_SIZE).body, name, through, sequence, first);
  }

  /** Whatever bytes a file holds, the part a walk accepts is exactly the encoding
      of consecutive records that follow `sequence`; nothing else is accepted. */
  lemma {:induction false} WalkCanonical(p: Platform, file: Bytes, name: uint64, final: bool, through: uint64,
                                         offset: nat, sequence: uint64, first: bool)
    requires offset <= |file|
    requires WalkFrom(p, file, name, final, through, offset, sequence, first).Walked?
    ensures
      var w := WalkFrom(p, file, name, final, through, offset, sequence, first);
      && offset <= w.offset <= |file|
      && sequence + |w.ops| <= MAX_SEQUENCE
      && (w.ops != [] ==> sequence + |w.ops| <= through)
      && AllEncodable(w.ops)
      && file[offset..w.offset] == EncodeOps(p, sequence, w.ops)
      && (first && w.ops != [] ==> name == sequence + 1)
      && (w.torn ==> final && w.offset < |file|)
      && (!w.torn && through == MAX_SEQUENCE ==> w.offset == |file|)
    decreases |file| - offset
  {
    hide Judge, ReadFrame, EncodeRecord, Encodable;
    if offset < |file| {
      match ReadFrame(p, file, offset, BODY_FIXED_SIZE)
      case Short =>
      case Overrun =>
      case Corrupt(_) =>
      case Framed(body, end) =>
        match Judge(body, name, through, sequence, first)
        case Reject(_) =>
        case Beyond => BeyondIsPast(body, name, through, sequence, first);
        case Accept(op) =>
          FrameCanonical(p, file, name, through, offset, sequence, first);
          WalkCanonical(p, file, name, final, through, end, sequence + 1, false);
          var rest := WalkFrom(p, file, name, final, through, end, sequence + 1, false);
          EncodeOpsFirst(p, sequence, op, rest.ops);
          Split(file, offset, end, rest.offset);
    }
  }

  lemma BeyondIsPast(body: Bytes, name: uint64, through: uint64, sequence: uint64, first: bool)
    requires |body| >= BODY_FIXED_SIZE
    ensures Judge(body, name, through, sequence, first).Beyond? <==> ReadFields(body).sequence > through
  {
  }

  lemma HeaderCanonical(file: Bytes)
    requires HeaderFault(file).None?
    ensures |file| >= HEADER_SIZE && file[..HEADER_SIZE] == SegmentHeader()
  {
    Canonical16(file[4..6]);
    Canonical16(file[6..8]);
    assert file[..HEADER_SIZE] == file[..4] + file[4..6] + file[6..8];
  }

  // ----- bytes this store wrote -----

  lemma JudgeEncoded(name: uint64, through: uint64, sequence: uint64, first: bool, op: Op)
    requires Encodable(op) && sequence < MAX_SEQUENCE
    requires first ==> name == sequence + 1
    ensures Judge(EncodeBody(sequence + 1, op), name, through, sequence, first)
         == if sequence < through then Accept(op) else Beyond
  {
    hide ReadFields, FixedPart;
    var code := if op.Set? then OP_SET else OP_DELETE;
    FieldsOfEncoded(code, |op.key|, DeadlineOf(op), sequence + 1, op.key + ValueOf(op));
  }

  /** One written record is read back as itself. */
  lemma WalkOne(p: Platform, file: Bytes, name: uint64, final: bool, through: uint64,
                offset: nat, sequence: uint64, first: bool, op: Op)
    requires Encodable(op) && sequence < MAX_SEQUENCE
    requires first ==> name == sequence + 1
    requires offset + RecordSize(op) <= |file|
    requires file[offset..offset + RecordSize(op)] == EncodeRecord(p, sequence + 1, op)
    ensures WalkFrom(p, file, name, final, through, offset, sequence, first)
         == if sequence < through
            then Prepend([op], WalkFrom(p, file, name, final, through, offset + RecordSize(op), sequence + 1, false))
            else Walked([], offset, false)
  {
    hide Judge, EncodeBody, EncodeFrame, ReadFrame;
    ReadWritten(p, file, offset, EncodeBody(sequence + 1, op), BODY_FIXED_SIZE);
    JudgeEncoded(name, through, sequence, first, op);
  }

  /** A stream of written records is read back in order, and the walk goes on behind it. */
  lemma {:induction false} WalkStream(p: Platform, file: Bytes, name: uint64, final: bool, through: uint64,
                                      offset: nat, base: nat, first: bool, ops: seq<Op>)
    requires AllEncodable(ops) && base + |ops| <= through <= MAX_SEQUENCE
    requires first && ops != [] ==> name == base + 1
    requires offset + |EncodeOps(p, base, ops)| <= |file|
    requires file[offset..offset + |EncodeOps(p, base, ops)|] == EncodeOps(p, base, ops)
    ensures WalkFrom(p, file, name, final, through, offset, base, first)
         == Prepend(ops, WalkFrom(p, file, name, final, through, offset + |EncodeOps(p, base, ops)|,
                                  base + |ops|, first && ops == []))
    decreases ops
  {
    hide EncodeRecord, WalkFrom;
    var here := WalkFrom(p, file, name, final, through, offset, base, first);
    if ops == [] {
      assert here.Walked? ==> [] + here.ops == here.ops;
    } else {
      var bytes := EncodeOps(p, base, ops);
      var next := offset + RecordSize(ops[0]);
      assert file[offset..next] == bytes[..RecordSize(ops[0])];
      WalkOne(p, file, name, final, through, offset, base, first, ops[0]);
      assert file[next..offset + |bytes|] == bytes[RecordSize(ops[0])..];
      WalkStream(p, file, name, final, through, next, base + 1, false, ops[1..]);
      assert [ops[0]] + ops[1..] == ops;
      PrependTwice([ops[0]], ops[1..], WalkFrom(p, file, name, final, through, offset + |bytes|, base + |ops|, false));
    }
  }

  lemma HeaderOfWritten(file: Bytes)
    requires |file| >= HEADER_SIZE && file[..HEADER_SIZE] == SegmentHeader()
    ensures HeaderFault(file).None?
  {
    RoundTrip16(FORMAT_VERSION);
    RoundTrip16(0);
    assert file[..4] == file[..HEADER_SIZE][..4];
    assert file[4..6] == file[..HEADER_SIZE][4..6];
    assert file[6..8] == file[..HEADER_SIZE][6..8];
  }

  /** A walk over a written segment reads its records and goes on behind them. */
  lemma WalkWritten(p: Platform, base: nat, ops: seq<Op>, tail: Bytes, name: uint64, final: bool, through: uint64)
    requires AllEncodable(ops) && base + |ops| <= through
    requires ops != [] ==> name == base + 1
    ensures WalkSegment(p, SegmentFile(p, base, ops) + tail, name, final, through, base)
         == Prepend(ops, WalkFrom(p, SegmentFile(p, base, ops) + tail, name, final, through,
                                  |SegmentFile(p, base, ops)|, base + |ops|, ops == []))
  {
    hide EncodeOps, WalkFrom, HeaderFault, SegmentHeader;
    var file := SegmentFile(p, base, ops) + tail;
    var bytes := EncodeOps(p, base, ops);
    assert file[..HEADER_SIZE] == SegmentHeader();
    HeaderOfWritten(file);
    assert file[HEADER_SIZE..HEADER_SIZE + |bytes|] == bytes;
    WalkStream(p, file, name, final, through, HEADER_SIZE, base, true, ops);
  }

  /** Recovery of an intact segment, final or not. */
  lemma WalkIntact(p: Platform, base: nat, ops: seq<Op>, name: uint64, final: bool, through: uint64)
    requires AllEncodable(ops) && base + |ops| <= through
    requires ops != [] ==> name == base + 1
    ensures WalkSegment(p, SegmentFile(p, base, ops), name, final, through, base)
         == Walked(ops, |SegmentFile(p, base, ops)|, false)
  {
    WalkWritten(p, base, ops, [], name, final, through);
    assert SegmentFile(p, base, ops) + [] == SegmentFile(p, base, ops);
    assert ops + [] == ops;
  }

  /** The final segment with a torn tail: the whole records survive, the tail is cut. */
  lemma WalkTorn(p: Platform, base: nat, ops: seq<Op>, tail: Bytes, next: Op, name: uint64)
    requires AllEncodable(ops) && Encodable(next) && base + |ops| < MAX_SEQUENCE
    requires ops != [] ==> name == base + 1
    requires tail != [] && TornTail(p, tail, base + |ops| + 1, next)
    ensures WalkSegment(p, SegmentFile(p, base, ops) + tail, name, true, MAX_SEQUENCE, base)
         == Walked(ops, |SegmentFile(p, base, ops)|, true)
  {
    hide EncodeOps, EncodeBody, EncodeFrame, ReadFrame;
    var whole := SegmentFile(p, base, ops);
    var file := whole + tail;
    WalkWritten(p, base, ops, tail, name, true, MAX_SEQUENCE);
    assert file[|whole|..] == tail;
    ReadTorn(p, file, |whole|, EncodeBody(base + |ops| + 1, next), BODY_FIXED_SIZE);
    assert ops + [] == ops;
  }

  /** A compaction boundary inside a segment: the walk stops before the first later record. */
  lemma WalkStopsAt(p: Platform, base: nat, ops: seq<Op>, next: Op, rest: Bytes, name: uint64, final: bool)
    requires AllEncodable(ops) && Encodable(next) && base + |ops| < MAX_SEQUENCE
    requires name == base + 1
    ensures WalkSegment(p, SegmentFile(p, base, ops) + (EncodeRecord(p, base + |ops| + 1, next) + rest), name, final, base + |ops|, base)
         == Walked(ops, |SegmentFile(p, base, ops)|, false)
  {
    hide EncodeOps, EncodeBody, EncodeFrame, ReadFrame, Judge;
    var whole := SegmentFile(p, base, ops);
    var record := EncodeRecord(p, base + |ops| + 1, next);
    var file := whole + (record + rest);
    WalkWritten(p, base, ops, record + rest, name, final, base + |ops|);
    assert file[|whole|..|whole| + |record|] == record;
    WalkOne(p, file, name, final, base + |ops|, |whole|, base + |ops|, ops == [], next);
    assert ops + [] == ops;
  }

  /** Stream round trip: whatever the size check admits is read back from its encoding
      as it was, keys, values, signed deadlines, kinds and sequences. */
  lemma StreamRoundTrip(p: Platform, base: nat, ops: seq<Op>, final: bool)
    requires base + |ops| <= MAX_SEQUENCE && base < MAX_SEQUENCE
    requires forall i :: 0 <= i < |ops| ==> Admitted(ops[i])
    ensures AllEncodable(ops)
    ensures WalkSegment(p, SegmentFile(p, base, ops), base + 1, final, MAX_SEQUENCE, base)
         == Walked(ops, |SegmentFile(p, base, ops)|, false)
  {
    hide SegmentFile, WalkSegment;
    forall i | 0 <= i < |ops|
      ensures Encodable(ops[i])
    {
      assert Admitted(ops[i]);
    }
    WalkIntact(p, base, ops, base + 1, final, MAX_SEQUENCE);
  }

  /** The last segment with or without a torn tail. */
  lemma WalkFinal(p: Platform, base: nat, ops: seq<Op>, tail: Bytes, next: Op, name: uint64)
    requires AllEncodable(ops) && base + |ops| <= MAX_SEQUENCE
    requires ops != [] ==> name == base + 1
    requires tail != [] ==> base + |ops| < MAX_SEQUENCE && Encodable(next) && TornTail(p, tail, base + |ops| + 1, next)
    ensures WalkSegment(p, SegmentFile(p, base, ops) + tail, name, true, MAX_SEQUENCE, base)
         == Walked(ops, |SegmentFile(p, base, ops)|, tail != [])
  {
    hide SegmentFile, WalkSegment, TornTail;
    if tail == [] {
      assert SegmentFile(p, base, ops) + tail == SegmentFile(p, base, ops);
      WalkIntact(p, base, ops, name, true, MAX_SEQUENCE);
    } else {
      WalkTorn(p, base, ops, tail, next, name);
    }
  }

  /** Only the final segment of a log being opened may be torn. */
  lemma WalkRefusesTorn(p: Platform, base: nat, ops: seq<Op>, tail: Bytes, next: Op, name: uint64, through: uint64)
    requires AllEncodable(ops) && Encodable(next) && base + |ops| < MAX_SEQUENCE && base + |ops| <= through
    requires ops != [] ==> name == base + 1
    requires tail != [] && TornTail(p, tail, base + |ops| + 1, next)
    ensures WalkSegment(p, SegmentFile(p, base, ops) + tail, name, false, through, base)
         == Refused(UnexpectedEof, |SegmentFile(p, base, ops)|)
  {
    hide EncodeOps, EncodeBody, EncodeFrame, ReadFrame;
    var whole := SegmentFile(p, base, ops);
    var file := whole + tail;
    WalkWritten(p, base, ops, tail, name, false, through);
    assert file[|whole|..] == tail;
    ReadTorn(p, file, |whole|, EncodeBody(base + |ops| + 1, next), BODY_FIXED_SIZE);
  }

  lemma StreamSplit(p: Platform, base: nat, ops: seq<Op>, n: nat)
    requires AllEncodable(ops) && base + |ops| <= MAX_SEQUENCE && n < |ops|
    ensures EncodeOps(p, base, ops)
         == EncodeOps(p, base, ops[..n]) + (EncodeRecord(p, base + n + 1, ops[n]) + EncodeOps(p, base + n + 1, ops[n + 1..]))
  {
    hide EncodeOps, EncodeRecord, Encodable;
    assert ops == ops[..n] + ops[n..];
    EncodeOpsAppend(p, base, ops[..n], ops[n..]);
    assert ops[n..] == [ops[n]] + ops[n + 1..];
    EncodeOpsFirst(p, base + n, ops[n], ops[n + 1..]);
  }

  /** Reading a segment up to a sequence it reaches, without trimming. */
  lemma WalkPart(p: Platform, base: nat, ops: seq<Op>, n: nat, tail: Bytes)
    requires AllEncodable(ops) && base + |ops| <= MAX_SEQUENCE && base < MAX_SEQUENCE
    requires n <= |ops| && (n < |ops| || tail == [])
    ensures
      var w := WalkSegment(p, SegmentFile(p, base, ops) + tail, base + 1, false, base + n, base);
      w.Walked? && w.ops == ops[..n]
  {
    hide EncodeOps, EncodeRecord, WalkSegment, Encodable, SegmentHeader;
    if n == |ops| {
      assert SegmentFile(p, base, ops) + tail == SegmentFile(p, base, ops);
      assert ops[..n] == ops;
      WalkIntact(p, base, ops, base + 1, false, base + n);
    } else {
      StreamSplit(p, base, ops, n);
      var rest := EncodeOps(p, base + n + 1, ops[n + 1..]) + tail;
      assert SegmentFile(p, base, ops) + tail
          == SegmentFile(p, base, ops[..n]) + (EncodeRecord(p, base + n + 1, ops[n]) + rest);
      WalkStopsAt(p, base, ops[..n], ops[n], rest, base + 1, false);
    }
  }

  /** A cut segment file: the whole records inside the cut, then part of the next one. */
  lemma CutFile(p: Platform, base: nat, ops: seq<Op>, cut: nat)
    requires AllEncodable(ops) && base + |ops| <= MAX_SEQUENCE
    requires HEADER_SIZE <= cut <= |SegmentFile(p, base, ops)|
    ensures
      var n := WholeRecords(ops, cut - HEADER_SIZE);
      var tail := TornPart(p, base, ops, cut - HEADER_SIZE);
      && n <= |ops| && AllEncodable(ops[..n])
      && SegmentFile(p, base, ops)[..cut] == SegmentFile(p, base, ops[..n]) + tail
      && (n == |ops| ==> tail == [])
      && (n < |ops| ==> Encodable(ops[n]) && (tail != [] ==> TornTail(p, tail, base + n + 1, ops[n])))
  {
    hide EncodeOps, EncodeRecord, SegmentHeader, WholeRecords, TornPart, TornTail, Encodable;
    var n := WholeRecords(ops, cut - HEADER_SIZE);
    CutStream(p, base, ops, cut - HEADER_SIZE);
    CutInSecond(SegmentHeader(), EncodeOps(p, base, ops), cut, EncodeOps(p, base, ops[..n]),
                TornPart(p, base, ops, cut - HEADER_SIZE));
  }

  /** Torn-tail recovery: cut a segment at any byte at or after its header. The
      final-segment walk yields exactly the records wholly inside the cut, leaves
      their encoding and nothing else in the file, and a second recovery changes
      nothing. */
  lemma TornTailRecovery(p: Platform, base: nat, ops: seq<Op>, cut: nat)
    requires AllEncodable(ops) && base + |ops| <= MAX_SEQUENCE && base < MAX_SEQUENCE
    requires HEADER_SIZE <= cut <= |SegmentFile(p, base, ops)|
    ensures
      var whole := ops[..WholeRecords(ops, cut - HEADER_SIZE)];
      var file := SegmentFile(p, base, ops)[..cut];
      var w := WalkSegment(p, file, base + 1, true, MAX_SEQUENCE, base);
      && w.Walked? && w.ops == whole && w.offset == |SegmentFile(p, base, whole)|
      && FileAfter(file, w) == SegmentFile(p, base, whole)
      && WalkSegment(p, FileAfter(file, w), base + 1, true, MAX_SEQUENCE, base) == Walked(whole, w.offset, false)
  {
    hide SegmentFile, WalkSegment, AllEncodable, WholeRecords, TornPart, TornTail;
    var n := WholeRecords(ops, cut - HEADER_SIZE);
    var tail := TornPart(p, base, ops, cut - HEADER_SIZE);
    CutFile(p, base, ops, cut);
    var kept := SegmentFile(p, base, ops[..n]);
    assert (kept + tail)[..|kept|] == kept;
    assert tail == [] ==> kept + tail == kept;
    WalkIntact(p, base, ops[..n], base + 1, true, MAX_SEQUENCE);
    if n < |ops| {
      WalkFinal(p, base, ops[..n], tail, ops[n], base + 1);
    }
  }

  lemma EncodeOpsSingle(p: Platform, base: nat, op: Op)
    requires Encodable(op) && base < MAX_SEQUENCE
    ensures EncodeOps(p, base, [op]) == EncodeRecord(p, base + 1, op)
  {
    hide EncodeRecord;
    assert EncodeOps(p, base + 1, [op][1..]) == [];
  }

  /** Appending to a recovered file keeps it the encoding of one consecutive run. */
  lemma AppendAfterRecovery(p: Platform, base: nat, ops: seq<Op>, more: seq<Op>)
    requires AllEncodable(ops) && AllEncodable(more) && base + |ops| + |more| <= MAX_SEQUENCE
    ensures AllEncodable(ops + more)
    ensures SegmentFile(p, base, ops) + EncodeOps(p, base + |ops|, more) == SegmentFile(p, base, ops + more)
  {
    EncodeOpsAppend(p, base, ops, more);
  }

  // ----- the program -----

  /** `recoverSegment`: one pass over the bytes that applies each record as it is
      read and cuts a torn tail. It does what decoding the whole segment first and
      folding the records afterwards would do. */
  method RecoverSegment(p: Platform, f: Filter, image: Image, file: Bytes, name: uint64, final: bool,
                        through: uint64, previous: uint64)
    returns (walk: Walk, sequence: uint64, recovered: Image, left: Bytes)
    requires ValidFilter(f)
    ensures walk == WalkSegment(p, file, name, final, through, previous)
    ensures walk.Walked? ==>
      && previous + |walk.ops| == sequence
      && recovered == Fold(p, f, image, walk.ops, previous)
      && walk.offset <= |file|
      && left == FileAfter(file, walk)
  {
    hide ReadFrame, Judge, EncodeRecord, HeaderFault, SegmentHeader, ApplyOp, Applies;
    recovered, sequence, left := image, previous, file;
    match HeaderFault(file)
    case Some(refused) => return refused, sequence, recovered, left;
    case None =>
    var offset := HEADER_SIZE;
    var first, torn := true, false;
    var done: seq<Op> := [];
    ghost var whole := WalkFrom(p, file, name, final, through, HEADER_SIZE, previous, true);
    while offset < |file|
      invariant HEADER_SIZE <= offset <= |file|
      invariant sequence == previous + |done|
      invariant recovered == Fold(p, f, image, done, previous)
      invariant whole == Prepend(done, WalkFrom(p, file, name, final, through, offset, sequence, first))
      decreases |file| - offset
    {
      match ReadFrame(p, file, offset, BODY_FIXED_SIZE)
      case Short | Overrun =>
        if !final { return Refused(UnexpectedEof, offset), sequence, recovered, left; }
        torn := true;
        break;
      case Corrupt(end) =>
        if !(final && end == |file|) { return Refused(ChecksumMismatch, offset), sequence, recovered, left; }
        torn := true;
        break;
      case Framed(body, end) =>
        match Judge(body, name, through, sequence, first)
        case Beyond => break;
        case Reject(fault) => return Refused(fault, offset), sequence, recovered, left;
        case Accept(op) =>
          FrameCanonical(p, file, name, through, offset, sequence, first);
          sequence := sequence + 1;
          if Applies(p, f, op.key, sequence) {
            recovered := ApplyOp(recovered, op, sequence);
          }
          assert (done + [op])[..|done|] == done;
          PrependTwice(done, [op], WalkFrom(p, file, name, final, through, end, sequence, false));
          done := done + [op];
          first := false;
          offset := end;
    }
    walk := Walked(done, offset, torn);
    if torn { left := file[..offset]; }
  }
}
