/** The two file formats, byte by byte. */
module Format {
  import opened Base
  import opened LittleEndian
  import opened Replay
  import opened WalCodec
  import opened SegmentRecovery
  import SC = SnapshotCodec

  /** `n`, least significant byte first, in `width` bytes at `at`. */
  predicate Field(b: Bytes, at: nat, width: nat, n: nat) {
    && at + width <= |b| && n < Pow256(width)
    && forall i :: 0 <= i < width ==> b[at + i] == ByteOf(n, i)
  }

  function ByteOf(n: nat, i: nat): nat { n / Pow256(i) % 256 }

  lemma {:induction false} EncodeAt(n: nat, width: nat, i: nat)
    requires i < width
    ensures Encode(n, width)[i] == ByteOf(n, i)
    decreases width
  {
    if i > 0 {
      EncodeAt(n / 256, width - 1, i - 1);
      Divided(n, Pow256(i - 1));
    }
  }

  lemma Divided(n: nat, d: nat)
    requires d > 0
    ensures n / 256 / d == n / (256 * d)
  {
    var q, r := n / 256, n % 256;
    var q', r' := q / d, q % d;
    assert n == 256 * q + r && q == d * q' + r';
    assert n == (256 * d) * q' + (256 * r' + r);
    Quotient(n, 256 * d, q', 256 * r' + r);
  }

  lemma Quotient(n: nat, d: nat, q: nat, r: nat)
    requires r < d && n == d * q + r
    ensures n / d == q
  {
    var q', r' := n / d, n % d;
    assert n == d * q' + r';
    assert d * (q - q') == r' - r;
    if q > q' { AtLeast(d, q - q'); } else if q < q' { AtLeast(d, q' - q); }
  }

  lemma AtLeast(d: nat, k: nat)
    requires k > 0
    ensures d * k >= d
  {
  }

  lemma FieldOf(b: Bytes, at: nat, width: nat, n: nat)
    requires at + width <= |b| && b[at..at + width] == Encode(n, width) && n < Pow256(width)
    ensures Field(b, at, width, n)
  {
    hide Encode, Pow256, ByteOf;
    forall i | 0 <= i < width
      ensures b[at + i] == ByteOf(n, i)
    {
      EncodeAt(n, width, i);
      assert b[at + i] == b[at..at + width][i];
    }
  }

  /** Two's complement. */
  lemma Complement(deadline: int64)
    ensures Unsigned(deadline) == deadline % 0x1_0000_0000_0000_0000
    ensures Signed(Unsigned(deadline)) == deadline
  {
  }

  /** Length, checksum, operation, key length, deadline, sequence, key, value. */
  lemma RecordBytes(p: Platform, sequence: uint64, op: Op)
    requires Encodable(op)
    ensures
      var r := EncodeRecord(p, sequence, op);
      var k := |op.key|;
      && |r| == 27 + k + |ValueOf(op)|
      && Field(r, 0, 4, |r| - 4) && Field(r, 4, 4, p.crc(r[8..]))
      && r[8] == (if op.Set? then 1 else 2)
      && Field(r, 9, 2, k) && Field(r, 11, 8, DeadlineOf(op) % 0x1_0000_0000_0000_0000) && Field(r, 19, 8, sequence)
      && r[27..27 + k] == op.key && r[27 + k..] == ValueOf(op)
  {
    hide Encode, Pow256, Field, Decode, ValueOf, DeadlineOf;
    Widths();
    Complement(DeadlineOf(op));
    var k, deadline := |op.key|, Unsigned(DeadlineOf(op));
    var r, body := EncodeRecord(p, sequence, op), EncodeBody(sequence, op);
    assert r[8..] == body;
    FieldOf(r, 0, 4, |r| - 4);
    FieldOf(r, 4, 4, p.crc(body));
    FieldOf(r, 9, 2, k);
    FieldOf(r, 11, 8, deadline);
    FieldOf(r, 19, 8, sequence);
  }

  /** Length, checksum, key length, deadline, sequence, key, value. */
  lemma EntryBytes(p: Platform, item: SC.Item)
    requires SC.EncodableItem(item)
    ensures
      var r := SC.EncodeItem(p, item);
      var k := |item.key|;
      && |r| == 26 + k + |item.entry.value|
      && Field(r, 0, 4, |r| - 4) && Field(r, 4, 4, p.crc(r[8..]))
      && Field(r, 8, 2, k) && Field(r, 10, 8, item.entry.deadline % 0x1_0000_0000_0000_0000) && Field(r, 18, 8, item.entry.sequence)
      && r[26..26 + k] == item.key && r[26 + k..] == item.entry.value
  {
    hide Encode, Pow256, Field, Decode;
    Widths();
    Complement(item.entry.deadline);
    var k, deadline := |item.key|, Unsigned(item.entry.deadline);
    var r, body := SC.EncodeItem(p, item), SC.EncodeItemBody(item);
    assert r[8..] == body;
    FieldOf(r, 0, 4, |r| - 4);
    FieldOf(r, 4, 4, p.crc(body));
    FieldOf(r, 8, 2, k);
    FieldOf(r, 10, 8, deadline);
    FieldOf(r, 18, 8, item.entry.sequence);
  }

  /** The segment header never changes. */
  lemma SegmentHeaderBytes()
    ensures SegmentHeader() == [0x43, 0x57, 0x41, 0x4C, 1, 0, 0, 0]
  {
    assert Put16(1) == [1, 0] && Put16(0) == [0, 0];
  }

  /** Magic, version, flags, shard count, then the sequences in shard order. */
  lemma SnapshotHeaderBytes(sequences: seq<uint64>, i: nat)
    requires |sequences| <= 0xFFFF_FFFF && i < |sequences|
    ensures
      var r := SC.SnapshotHeader(sequences);
      && |r| == 12 + 8 * |sequences| && r[..8] == [0x43, 0x53, 0x4E, 0x50, 1, 0, 0, 0]
      && Field(r, 8, 4, |sequences|) && Field(r, 12 + 8 * i, 8, sequences[i])
  {
    var r := SC.SnapshotHeader(sequences);
    assert Put16(1) == [1, 0] && Put16(0) == [0, 0];
    assert r[..8] == [0x43, 0x53, 0x4E, 0x50, 1, 0, 0, 0];
    CountAndSequence(sequences, i);
  }

  lemma CountAndSequence(sequences: seq<uint64>, i: nat)
    requires |sequences| <= 0xFFFF_FFFF && i < |sequences|
    ensures
      var r := SC.SnapshotHeader(sequences);
      Field(r, 8, 4, |sequences|) && Field(r, 12 + 8 * i, 8, sequences[i])
  {
    hide Encode, Pow256, Field, Decode;
    var r := SC.SnapshotHeader(sequences);
    Widths();
    FieldOf(r, 8, 4, |sequences|);
    SequenceAt(sequences, i);
    assert r[12 + 8 * i..20 + 8 * i] == SC.EncodeSequences(sequences)[8 * i..8 * i + 8];
    FieldOf(r, 12 + 8 * i, 8, sequences[i]);
  }

  lemma {:induction false} SequenceAt(sequences: seq<uint64>, i: nat)
    requires i < |sequences|
    ensures SC.EncodeSequences(sequences)[8 * i..8 * i + 8] == Put64(sequences[i])
    decreases sequences
  {
    hide Put64;
    var all := SC.EncodeSequences(sequences);
    if i > 0 {
      SequenceAt(sequences[1..], i - 1);
      assert all[8..] == SC.EncodeSequences(sequences[1..]);
      assert all[8 * i..8 * i + 8] == all[8..][8 * (i - 1)..8 * (i - 1) + 8];
    }
  }

  /** An operation is admitted if and only if its whole record can be counted in 32 bits
      and its key in 16. */
  lemma AdmittedExactly(p: Platform, sequence: uint64, op: Op)
    ensures Admitted(op) <==> |op.key| < 0x1_0000 && Encodable(op) && |EncodeRecord(p, sequence, op)| < 0x1_0000_0000
  {
  }
}
