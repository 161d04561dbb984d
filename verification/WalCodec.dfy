/** The write-ahead log record: encoding, decoding, and streams of records. */
module WalCodec {
  import opened Base
  import opened LittleEndian
  import opened Frames
  import opened Slices
  import opened Replay

  const OP_SET: byte := 1
  const OP_DELETE: byte := 2
  const BODY_FIXED_SIZE := 19      // operation, key length, deadline, sequence
  const RECORD_FIXED_SIZE := 27    // the body's fixed part behind length and checksum

  /** `validateRecordSize`: what the store lets into the log. */
  predicate Admitted(op: Op) {
    |op.key| <= 0xFFFF && RECORD_FIXED_SIZE + |op.key| + |ValueOf(op)| <= 0xFFFF_FFFF
  }

  /** What the record format can express; a few bytes more than is admitted. */
  predicate Encodable(op: Op) {
    |op.key| <= 0xFFFF && RECORD_FIXED_SIZE - LENGTH_SIZE + |op.key| + |ValueOf(op)| <= 0xFFFF_FFFF
  }

  predicate AllEncodable(ops: seq<Op>) { forall i :: 0 <= i < |ops| ==> Encodable(ops[i]) }

  function ValueOf(op: Op): Bytes { if op.Set? then op.value else [] }
  function DeadlineOf(op: Op): int64 { if op.Set? then op.deadline else 0 }

  /** `recordSizeFor`. */
  function RecordSize(op: Op): nat { RECORD_FIXED_SIZE + |op.key| + |ValueOf(op)| }

  function FixedPart(code: byte, keyLength: uint16, deadline: int64, sequence: uint64): (r: Bytes)
    ensures |r| == BODY_FIXED_SIZE
  {
    [code] + Put16(keyLength) + Put64(Unsigned(deadline)) + Put64(sequence)
  }

  function EncodeBody(sequence: uint64, op: Op): (r: Bytes)
    requires Encodable(op)
    ensures |r| == BODY_FIXED_SIZE + |op.key| + |ValueOf(op)| && Fits(r)
  {
    FixedPart(if op.Set? then OP_SET else OP_DELETE, |op.key|, DeadlineOf(op), sequence) + (op.key + ValueOf(op))
  }

  function EncodeRecord(p: Platform, sequence: uint64, op: Op): (r: Bytes)
    requires Encodable(op)
    ensures |r| == RecordSize(op)
  {
    EncodeFrame(p, EncodeBody(sequence, op))
  }

  /** The fields of a record body, before any of them is judged. */
  datatype Fields = Fields(code: byte, keyLength: uint16, deadline: int64, sequence: uint64, rest: Bytes)

  function ReadFields(body: Bytes): Fields
    requires |body| >= BODY_FIXED_SIZE
  {
    Fields(body[0], Get16(body[1..3]), Signed(Get64(body[3..11])), Get64(body[11..19]), body[19..])
  }

  lemma FieldsOfEncoded(code: byte, keyLength: uint16, deadline: int64, sequence: uint64, rest: Bytes)
    ensures ReadFields(FixedPart(code, keyLength, deadline, sequence) + rest)
         == Fields(code, keyLength, deadline, sequence, rest)
  {
    var body := FixedPart(code, keyLength, deadline, sequence) + rest;
    RoundTrip16(keyLength);
    RoundTrip64(sequence);
    RoundTrip64(Unsigned(deadline));
    assert body[1..3] == Put16(keyLength);
    assert body[3..11] == Put64(Unsigned(deadline));
    assert body[11..19] == Put64(sequence);
    assert body[19..] == rest;
  }

  lemma FieldsCanonical(body: Bytes)
    requires |body| >= BODY_FIXED_SIZE
    ensures
      var f := ReadFields(body);
      body == FixedPart(f.code, f.keyLength, f.deadline, f.sequence) + f.rest
  {
    Canonical16(body[1..3]);
    Canonical64(body[3..11]);
    Canonical64(body[11..19]);
    assert body == [body[0]] + body[1..3] + body[3..11] + body[11..19] + body[19..];
  }

  /** The concatenation of records `base + 1`, `base + 2`, ... */
  function EncodeOps(p: Platform, base: nat, ops: seq<Op>): Bytes
    requires AllEncodable(ops) && base + |ops| <= MAX_SEQUENCE
    decreases ops
  {
    if ops == [] then []
    else EncodeRecord(p, base + 1, ops[0]) + EncodeOps(p, base + 1, ops[1..])
  }

  lemma EncodeOpsFirst(p: Platform, base: nat, op: Op, ops: seq<Op>)
    requires Encodable(op) && AllEncodable(ops) && base + 1 + |ops| <= MAX_SEQUENCE
    ensures AllEncodable([op] + ops)
    ensures EncodeOps(p, base, [op] + ops) == EncodeRecord(p, base + 1, op) + EncodeOps(p, base + 1, ops)
  {
    hide EncodeRecord, Encodable;
    assert ([op] + ops)[1..] == ops;
  }

  lemma {:induction false} EncodeOpsAppend(p: Platform, base: nat, a: seq<Op>, b: seq<Op>)
    requires AllEncodable(a) && AllEncodable(b) && base + |a| + |b| <= MAX_SEQUENCE
    ensures AllEncodable(a + b)
    ensures EncodeOps(p, base, a + b) == EncodeOps(p, base, a) + EncodeOps(p, base + |a|, b)
    decreases a
  {
    hide EncodeRecord, Encodable;
    if a == [] {
      assert a + b == b;
    } else {
      EncodeOpsAppend(p, base + 1, a[1..], b);
      assert (a + b)[1..] == a[1..] + b;
    }
  }

  function TotalSize(ops: seq<Op>): nat {
    if ops == [] then 0 else RecordSize(ops[0]) + TotalSize(ops[1..])
  }

  lemma {:induction false} EncodeOpsSize(p: Platform, base: nat, ops: seq<Op>)
    requires AllEncodable(ops) && base + |ops| <= MAX_SEQUENCE
    ensures |EncodeOps(p, base, ops)| == TotalSize(ops)
    decreases ops
  {
    if ops != [] { EncodeOpsSize(p, base + 1, ops[1..]); }
  }

  /** `tail` is what a cut write leaves of the record after the last whole one. */
  predicate TornTail(p: Platform, tail: Bytes, sequence: uint64, op: Op)
    requires Encodable(op)
  {
    |tail| < RecordSize(op) && tail == EncodeRecord(p, sequence, op)[..|tail|]
  }

  /** How many records lie wholly within the first `cut` bytes of a stream. */
  function WholeRecords(ops: seq<Op>, cut: nat): (n: nat)
    ensures n <= |ops|
  {
    if ops == [] || cut < RecordSize(ops[0]) then 0 else 1 + WholeRecords(ops[1..], cut - RecordSize(ops[0]))
  }

  lemma {:induction false} WholeRecordsFit(ops: seq<Op>, cut: nat)
    ensures TotalSize(ops[..WholeRecords(ops, cut)]) <= cut
    ensures WholeRecords(ops, cut) < |ops| ==> cut < TotalSize(ops[..WholeRecords(ops, cut) + 1])
    decreases ops
  {
    if ops != [] && cut >= RecordSize(ops[0]) {
      var n := WholeRecords(ops, cut);
      WholeRecordsFit(ops[1..], cut - RecordSize(ops[0]));
      assert ops[..n][1..] == ops[1..][..n - 1];
      assert n < |ops| ==> ops[..n + 1][1..] == ops[1..][..n];
    } else if ops != [] {
      assert ops[..1][1..] == [];
    }
  }

  /** What follows the whole records of a cut stream. */
  function TornPart(p: Platform, base: nat, ops: seq<Op>, cut: nat): Bytes
    requires AllEncodable(ops) && base + |ops| <= MAX_SEQUENCE
    decreases ops
  {
    if ops == [] then []
    else if cut < RecordSize(ops[0]) then EncodeRecord(p, base + 1, ops[0])[..cut]
    else TornPart(p, base + 1, ops[1..], cut - RecordSize(ops[0]))
  }

  /** The first `cut` bytes of a stream are `whole` records and the torn `tail`. */
  predicate CutInto(p: Platform, base: nat, ops: seq<Op>, cut: nat, whole: nat, tail: Bytes)
    requires AllEncodable(ops) && base + |ops| <= MAX_SEQUENCE && whole <= |ops|
    requires cut <= |EncodeOps(p, base, ops)|
  {
    && EncodeOps(p, base, ops)[..cut] == EncodeOps(p, base, ops[..whole]) + tail
    && (if whole == |ops| then tail == [] else TornTail(p, tail, base + whole + 1, ops[whole]))
  }

  lemma CutFirst(p: Platform, base: nat, ops: seq<Op>, cut: nat)
    requires AllEncodable(ops) && base + |ops| <= MAX_SEQUENCE && ops != [] && cut < RecordSize(ops[0])
    ensures cut <= |EncodeOps(p, base, ops)|
    ensures CutInto(p, base, ops, cut, 0, EncodeRecord(p, base + 1, ops[0])[..cut])
  {
    hide EncodeRecord, Encodable;
  }

  lemma CutLater(p: Platform, base: nat, ops: seq<Op>, cut: nat, whole: nat, tail: Bytes)
    requires AllEncodable(ops) && base + |ops| <= MAX_SEQUENCE && ops != []
    requires RecordSize(ops[0]) <= cut && whole < |ops|
    requires cut - RecordSize(ops[0]) <= |EncodeOps(p, base + 1, ops[1..])|
    requires CutInto(p, base + 1, ops[1..], cut - RecordSize(ops[0]), whole, tail)
    ensures cut <= |EncodeOps(p, base, ops)|
    ensures CutInto(p, base, ops, cut, whole + 1, tail)
  {
    hide EncodeRecord, Encodable, EncodeOps, TornTail;
    HeadAndRest(ops, whole);
    EncodeOpsFirst(p, base, ops[0], ops[1..]);
    EncodeOpsFirst(p, base, ops[0], ops[1..][..whole]);
    CutInSecond(EncodeRecord(p, base + 1, ops[0]), EncodeOps(p, base + 1, ops[1..]), cut,
                EncodeOps(p, base + 1, ops[1..][..whole]), tail);
  }

  /** Any byte prefix of a stream is some whole records and a torn tail. */
  lemma {:induction false} CutStream(p: Platform, base: nat, ops: seq<Op>, cut: nat)
    requires AllEncodable(ops) && base + |ops| <= MAX_SEQUENCE
    requires cut <= |EncodeOps(p, base, ops)|
    ensures CutInto(p, base, ops, cut, WholeRecords(ops, cut), TornPart(p, base, ops, cut))
    decreases ops
  {
    if ops == [] {
    } else if cut < RecordSize(ops[0]) {
      CutFirst(p, base, ops, cut);
    } else {
      hide EncodeRecord, Encodable, CutInto;
      CutStream(p, base + 1, ops[1..], cut - RecordSize(ops[0]));
      CutLater(p, base, ops, cut, WholeRecords(ops[1..], cut - RecordSize(ops[0])),
               TornPart(p, base + 1, ops[1..], cut - RecordSize(ops[0])));
    }
  }

  /** A write that is not cut leaves every record whole. */
  lemma {:induction false} NothingCut(p: Platform, base: nat, ops: seq<Op>)
    requires AllEncodable(ops) && base + |ops| <= MAX_SEQUENCE
    ensures WholeRecords(ops, |EncodeOps(p, base, ops)|) == |ops|
    ensures TornPart(p, base, ops, |EncodeOps(p, base, ops)|) == []
    decreases ops
  {
    hide EncodeRecord, Encodable;
    if ops != [] { NothingCut(p, base + 1, ops[1..]); }
  }
}
