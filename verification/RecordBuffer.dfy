/** Records laid out field by field in a byte buffer. */
module RecordBuffer {
  import opened Base
  import opened LittleEndian
  import opened Replay
  import opened WalCodec

  const CRC_OFFSET := 4
  const OP_OFFSET := 8
  const KEY_LENGTH_OFFSET := 9
  const DEADLINE_OFFSET := 11
  const SEQUENCE_OFFSET := 19
  const KEY_OFFSET := 27

  /** `binary.LittleEndian.PutUintN` on part of a buffer. */
  method PutUint(buffer: array<byte>, at: nat, n: nat, width: nat)
    requires at + width <= buffer.Length
    modifies buffer
    ensures buffer[at..at + width] == Encode(n, width)
    ensures forall k :: 0 <= k < buffer.Length && !(at <= k < at + width) ==> buffer[k] == old(buffer[k])
  {
    var rest := n;
    for i := 0 to width
      invariant buffer[at..at + i] + Encode(rest, width - i) == Encode(n, width)
      invariant forall k :: 0 <= k < buffer.Length && !(at <= k < at + i) ==> buffer[k] == old(buffer[k])
    {
      ghost var before := buffer[at..at + i];
      buffer[at + i] := rest % 256;
      assert buffer[at..at + i + 1] == before + [rest % 256];
      rest := rest / 256;
    }
  }

  /** `copy` into part of a buffer. */
  method Copy(buffer: array<byte>, at: nat, data: Bytes)
    requires at + |data| <= buffer.Length
    modifies buffer
    ensures buffer[at..at + |data|] == data
    ensures forall k :: 0 <= k < buffer.Length && !(at <= k < at + |data|) ==> buffer[k] == old(buffer[k])
  {
    for i := 0 to |data|
      invariant forall k :: 0 <= k < i ==> buffer[at + k] == data[k]
      invariant forall k :: 0 <= k < buffer.Length && !(at <= k < at + i) ==> buffer[k] == old(buffer[k])
    {
      buffer[at + i] := data[i];
    }
  }

  /** The fixed fields of a record body, each at its offset. */
  method FillFixed(record: array<byte>, sequence: uint64, op: Op)
    requires Encodable(op) && record.Length == RecordSize(op)
    modifies record
    ensures record[OP_OFFSET..KEY_OFFSET]
         == FixedPart(if op.Set? then OP_SET else OP_DELETE, |op.key|, DeadlineOf(op), sequence)
    ensures forall k :: 0 <= k < record.Length && !(OP_OFFSET <= k < KEY_OFFSET) ==> record[k] == old(record[k])
  {
    hide Encode;
    record[OP_OFFSET] := if op.Set? then OP_SET else OP_DELETE;
    PutUint(record, KEY_LENGTH_OFFSET, |op.key|, 2);
    PutUint(record, DEADLINE_OFFSET, Unsigned(DeadlineOf(op)), 8);
    PutUint(record, SEQUENCE_OFFSET, sequence, 8);
    assert record[KEY_LENGTH_OFFSET..DEADLINE_OFFSET] == Put16(|op.key|);
    assert record[DEADLINE_OFFSET..SEQUENCE_OFFSET] == Put64(Unsigned(DeadlineOf(op)));
    assert record[OP_OFFSET..KEY_OFFSET] == [record[OP_OFFSET]] + record[KEY_LENGTH_OFFSET..DEADLINE_OFFSET]
      + record[DEADLINE_OFFSET..SEQUENCE_OFFSET] + record[SEQUENCE_OFFSET..KEY_OFFSET];
  }

  /** The whole body: the fixed fields, then key and value. */
  method FillBody(record: array<byte>, sequence: uint64, op: Op)
    requires Encodable(op) && record.Length == RecordSize(op)
    modifies record
    ensures record[OP_OFFSET..] == EncodeBody(sequence, op) && record[..OP_OFFSET] == old(record[..OP_OFFSET])
  {
    hide FixedPart;
    FillFixed(record, sequence, op);
    ghost var fixed := record[OP_OFFSET..KEY_OFFSET];
    var end := KEY_OFFSET + |op.key|;
    Copy(record, KEY_OFFSET, op.key);
    Copy(record, end, ValueOf(op));
    assert record[OP_OFFSET..KEY_OFFSET] == fixed;
    assert record[KEY_OFFSET..end] == op.key;
    BodyFields(record[..], end);
  }

  lemma BodyFields(all: Bytes, end: nat)
    requires KEY_OFFSET <= end <= |all|
    ensures all[OP_OFFSET..] == all[OP_OFFSET..KEY_OFFSET] + (all[KEY_OFFSET..end] + all[end..])
  {
  }

  /** `appendRecord`: the length prefix first, the checksum last, over the finished body. */
  method AppendRecord(p: Platform, dst: Bytes, sequence: uint64, op: Op) returns (r: Bytes)
    requires Encodable(op)
    ensures r == dst + EncodeRecord(p, sequence, op)
  {
    hide Encode, EncodeBody;
    var record := new byte[RecordSize(op)](_ => 0);
    PutUint(record, 0, record.Length - CRC_OFFSET, 4);
    assert record[..CRC_OFFSET] == Put32(RecordSize(op) - CRC_OFFSET);
    ghost var header := record[..OP_OFFSET];
    FillBody(record, sequence, op);
    ghost var body := record[OP_OFFSET..];
    assert record[..CRC_OFFSET] == record[..OP_OFFSET][..CRC_OFFSET] == header[..CRC_OFFSET];
    ghost var prefix := record[..CRC_OFFSET];
    PutUint(record, CRC_OFFSET, p.crc(record[OP_OFFSET..]), 4);
    assert record[OP_OFFSET..] == body && record[..CRC_OFFSET] == prefix;
    assert record[..] == record[..CRC_OFFSET] + record[CRC_OFFSET..OP_OFFSET] + record[OP_OFFSET..];
    r := dst + record[..];
  }
}
