/** The snapshot file: a header with one log sequence per shard, then entries. */
module SnapshotCodec {
  import opened Base
  import opened LittleEndian
  import opened Frames

  const SNAPSHOT_MAGIC: Bytes := [0x43, 0x53, 0x4E, 0x50]   // "CSNP"
  const FIXED_HEADER_SIZE := 12
  const ITEM_FIXED_SIZE := 18      // key length, deadline, sequence

  datatype Item = Item(key: Key, entry: Entry)

  /** What a snapshot file says, once decoded. */
  datatype Snapshot = Snapshot(sequences: seq<uint64>, items: seq<Item>)

  datatype Reading = Read(snapshot: Snapshot) | Unreadable(fault: Fault, at: nat)

  // ----- writing -----

  predicate EncodableItem(item: Item) {
    |item.key| <= 0xFFFF && CRC_SIZE + ITEM_FIXED_SIZE + |item.key| + |item.entry.value| <= 0xFFFF_FFFF
  }

  function FixedPart(keyLength: uint16, deadline: int64, sequence: uint64): (r: Bytes)
    ensures |r| == ITEM_FIXED_SIZE
  {
    Put16(keyLength) + Put64(Unsigned(deadline)) + Put64(sequence)
  }

  function EncodeItemBody(item: Item): (r: Bytes)
    requires EncodableItem(item)
    ensures Fits(r) && |r| == ITEM_FIXED_SIZE + |item.key| + |item.entry.value|
  {
    FixedPart(|item.key|, item.entry.deadline, item.entry.sequence) + (item.key + item.entry.value)
  }

  /** `encodeSnapshotEntry`. */
  function EncodeItem(p: Platform, item: Item): (r: Bytes)
    requires EncodableItem(item)
    ensures |r| == LENGTH_SIZE + CRC_SIZE + ITEM_FIXED_SIZE + |item.key| + |item.entry.value|
  {
    EncodeFrame(p, EncodeItemBody(item))
  }

  predicate AllEncodableItems(items: seq<Item>) { forall i :: 0 <= i < |items| ==> EncodableItem(items[i]) }

  function EncodeItems(p: Platform, items: seq<Item>): Bytes
    requires AllEncodableItems(items)
  {
    if items == [] then [] else EncodeItem(p, items[0]) + EncodeItems(p, items[1..])
  }

  function EncodeSequences(sequences: seq<uint64>): (r: Bytes)
    ensures |r| == 8 * |sequences|
  {
    if sequences == [] then [] else Put64(sequences[0]) + EncodeSequences(sequences[1..])
  }

  /** `newSnapshotHeader`, before the sequences are filled in. */
  function FixedHeader(shards: uint32): (r: Bytes)
    ensures |r| == FIXED_HEADER_SIZE
  {
    SNAPSHOT_MAGIC + Put16(FORMAT_VERSION) + Put16(0) + Put32(shards)
  }

  predicate Covered(p: Platform, sequences: seq<uint64>, item: Item) {
    |sequences| > 0 && item.entry.sequence <= sequences[ShardOf(p, |sequences|, item.key)]
  }

  predicate AllCovered(p: Platform, sequences: seq<uint64>, items: seq<Item>) {
    forall i :: 0 <= i < |items| ==> Covered(p, sequences, items[i])
  }

  /** The snapshots the store writes and the loader takes back. */
  predicate WellFormed(p: Platform, s: Snapshot) {
    && |s.sequences| <= 0xFFFF_FFFF && PowerOfTwo(|s.sequences|)
    && AllEncodableItems(s.items)
    && AllCovered(p, s.sequences, s.items)
  }

  function SnapshotHeader(sequences: seq<uint64>): (r: Bytes)
    requires |sequences| <= 0xFFFF_FFFF
    ensures |r| == FIXED_HEADER_SIZE + 8 * |sequences|
  {
    FixedHeader(|sequences|) + EncodeSequences(sequences)
  }

  function EncodeSnapshot(p: Platform, s: Snapshot): Bytes
    requires WellFormed(p, s)
  {
    SnapshotHeader(s.sequences) + EncodeItems(p, s.items)
  }

  // ----- reading -----

  function HeaderFault(file: Bytes): (r: Option<Reading>)
    ensures if r.Some? then r.value.Unreadable? else
      |file| >= FIXED_HEADER_SIZE && |file| >= FIXED_HEADER_SIZE + 8 * Get32(file[8..12]) && Get32(file[8..12]) > 0
  {
    if |file| < FIXED_HEADER_SIZE then Some(Unreadable(UnexpectedEof, 0))
    else if file[..4] != SNAPSHOT_MAGIC then Some(Unreadable(UnknownMagic, 0))
    else if Get16(file[4..6]) != FORMAT_VERSION then Some(Unreadable(UnsupportedVersion, 4))
    else if Get16(file[6..8]) != 0 then Some(Unreadable(UnsupportedFlags, 6))
    else
      var shards := Get32(file[8..12]);
      if !PowerOfTwo(shards) then Some(Unreadable(InvalidShardCount, 8))
      else if FIXED_HEADER_SIZE + 8 * shards > |file| then Some(Unreadable(UnexpectedEof, FIXED_HEADER_SIZE))
      else None
  }

  function DecodeSequences(bytes: Bytes, shards: nat): (r: seq<uint64>)
    requires |bytes| == 8 * shards
    ensures |r| == shards
    decreases shards
  {
    if shards == 0 then [] else [Get64(bytes[..8])] + DecodeSequences(bytes[8..], shards - 1)
  }

  function ReadSequences(file: Bytes, shards: nat): (r: seq<uint64>)
    requires FIXED_HEADER_SIZE + 8 * shards <= |file|
    ensures |r| == shards
  {
    DecodeSequences(file[FIXED_HEADER_SIZE..FIXED_HEADER_SIZE + 8 * shards], shards)
  }

  datatype Fields = Fields(keyLength: uint16, deadline: int64, sequence: uint64, rest: Bytes)

  function ReadFields(body: Bytes): Fields
    requires |body| >= ITEM_FIXED_SIZE
  {
    Fields(Get16(body[..2]), Signed(Get64(body[2..10])), Get64(body[10..18]), body[18..])
  }

  datatype Verdict = Accept(item: Item) | Reject(fault: Fault)

  function Judge(p: Platform, sequences: seq<uint64>, body: Bytes): Verdict
    requires |body| >= ITEM_FIXED_SIZE && |sequences| > 0
  {
    var f := ReadFields(body);
    if f.keyLength > |f.rest| then Reject(KeyTooLong)
    else
      var item := Item(f.rest[..f.keyLength], Entry(f.rest[f.keyLength..], f.deadline, f.sequence));
      if Covered(p, sequences, item) then Accept(item) else Reject(EntryBeyondShard)
  }

  function Prepend(done: seq<Item>, r: Reading): Reading {
    if r.Unreadable? then r else Read(r.snapshot.(items := done + r.snapshot.items))
  }

  function ItemsFrom(p: Platform, file: Bytes, sequences: seq<uint64>, offset: nat): Reading
    requires offset <= |file| && |sequences| > 0
    decreases |file| - offset
  {
    if offset == |file| then Read(Snapshot(sequences, []))
    else match ReadFrame(p, file, offset, ITEM_FIXED_SIZE)
      case Short | Overrun => Unreadable(UnexpectedEof, offset)
      case Corrupt(_) => Unreadable(ChecksumMismatch, offset)
      case Framed(body, end) =>
        match Judge(p, sequences, body)
        case Reject(fault) => Unreadable(fault, offset)
        case Accept(item) => Prepend([item], ItemsFrom(p, file, sequences, end))
  }

  /** Decode a whole snapshot file, or say why it is refused. */
  function ReadSnapshot(p: Platform, file: Bytes): Reading {
    match HeaderFault(file)
    case Some(refused) => refused
    case None =>
      var shards := Get32(file[8..12]);
      ItemsFrom(p, file, ReadSequences(file, shards), FIXED_HEADER_SIZE + 8 * shards)
  }

  // ----- round trip -----

  lemma FieldsOfEncoded(keyLength: uint16, deadline: int64, sequence: uint64, rest: Bytes)
    ensures ReadFields(FixedPart(keyLength, deadline, sequence) + rest) == Fields(keyLength, deadline, sequence, rest)
  {
    var body := FixedPart(keyLength, deadline, sequence) + rest;
    RoundTrip16(keyLength);
    RoundTrip64(Unsigned(deadline));
    RoundTrip64(sequence);
    assert body[..2] == Put16(keyLength);
    assert body[2..10] == Put64(Unsigned(deadline));
    assert body[10..18] == Put64(sequence);
    assert body[18..] == rest;
  }

  lemma FieldsCanonical(body: Bytes)
    requires |body| >= ITEM_FIXED_SIZE
    ensures
      var f := ReadFields(body);
      body == FixedPart(f.keyLength, f.deadline, f.sequence) + f.rest
  {
    Canonical16(body[..2]);
    Canonical64(body[2..10]);
    Canonical64(body[10..18]);
    assert body == body[..2] + body[2..10] + body[10..18] + body[18..];
  }

  lemma JudgeEncoded(p: Platform, sequences: seq<uint64>, item: Item)
    requires EncodableItem(item) && Covered(p, sequences, item)
    ensures Judge(p, sequences, EncodeItemBody(item)) == Accept(item)
  {
    FieldsOfEncoded(|item.key|, item.entry.deadline, item.entry.sequence, item.key + item.entry.value);
  }

  lemma JudgeCanonical(p: Platform, sequences: seq<uint64>, body: Bytes)
    requires |body| >= ITEM_FIXED_SIZE && |sequences| > 0 && Fits(body)
    requires Judge(p, sequences, body).Accept?
    ensures
      var item := Judge(p, sequences, body).item;
      EncodableItem(item) && Covered(p, sequences, item) && EncodeItemBody(item) == body
  {
    var f := ReadFields(body);
    FieldsCanonical(body);
    assert f.rest == f.rest[..f.keyLength] + f.rest[f.keyLength..];
  }

  lemma PrependTwice(a: seq<Item>, b: seq<Item>, r: Reading)
    ensures Prepend(a, Prepend(b, r)) == Prepend(a + b, r)
  {
    assert r.Read? ==> a + (b + r.snapshot.items) == (a + b) + r.snapshot.items;
  }

  lemma {:induction false} ItemsOfEncoded(p: Platform, file: Bytes, sequences: seq<uint64>, offset: nat, items: seq<Item>)
    requires offset <= |file| && AllEncodableItems(items) && |sequences| > 0
    requires AllCovered(p, sequences, items)
    requires file[offset..] == EncodeItems(p, items)
    ensures ItemsFrom(p, file, sequences, offset) == Read(Snapshot(sequences, items))
    decreases items
  {
    hide EncodeItemBody, EncodeFrame, ReadFrame, Judge, EncodableItem, Covered;
    if items != [] {
      var first := EncodeItem(p, items[0]);
      var end := offset + |first|;
      assert file[offset..end] == file[offset..][..|first|] == first;
      ReadWritten(p, file, offset, EncodeItemBody(items[0]), ITEM_FIXED_SIZE);
      JudgeEncoded(p, sequences, items[0]);
      assert file[end..] == file[offset..][|first|..] == EncodeItems(p, items[1..]);
      ItemsOfEncoded(p, file, sequences, end, items[1..]);
      assert [items[0]] + items[1..] == items;
    }
  }

  lemma {:induction false} ItemsCanonical(p: Platform, file: Bytes, sequences: seq<uint64>, offset: nat)
    requires offset <= |file| && |sequences| > 0
    requires ItemsFrom(p, file, sequences, offset).Read?
    ensures
      var s := ItemsFrom(p, file, sequences, offset).snapshot;
      && s.sequences == sequences
      && AllEncodableItems(s.items)
      && AllCovered(p, sequences, s.items)
      && file[offset..] == EncodeItems(p, s.items)
    decreases |file| - offset
  {
    hide EncodeItemBody, EncodeFrame, ReadFrame, Judge, Covered, EncodableItem;
    if offset < |file| {
      match ReadFrame(p, file, offset, ITEM_FIXED_SIZE)
      case Framed(body, end) =>
        ReadCanonical(p, file, offset, ITEM_FIXED_SIZE);
        JudgeCanonical(p, sequences, body);
        ItemsCanonical(p, file, sequences, end);
        var rest := ItemsFrom(p, file, sequences, end).snapshot.items;
        var items := ItemsFrom(p, file, sequences, offset).snapshot.items;
        assert items[1..] == rest;
        assert file[offset..] == file[offset..end] + file[end..];
    }
  }

  lemma {:induction false} SequencesRoundTrip(sequences: seq<uint64>)
    ensures DecodeSequences(EncodeSequences(sequences), |sequences|) == sequences
  {
    hide Get64, Put64;
    if sequences != [] {
      var bytes := EncodeSequences(sequences);
      assert bytes[..8] == Put64(sequences[0]);
      assert bytes[8..] == EncodeSequences(sequences[1..]);
      RoundTrip64(sequences[0]);
      SequencesRoundTrip(sequences[1..]);
    }
  }

  lemma {:induction false} SequencesCanonical(bytes: Bytes, shards: nat)
    requires |bytes| == 8 * shards
    ensures EncodeSequences(DecodeSequences(bytes, shards)) == bytes
    decreases shards
  {
    hide Get64, Put64;
    if shards > 0 {
      Canonical64(bytes[..8]);
      SequencesCanonical(bytes[8..], shards - 1);
      assert DecodeSequences(bytes, shards)[1..] == DecodeSequences(bytes[8..], shards - 1);
      assert bytes == bytes[..8] + bytes[8..];
    }
  }

  lemma FixedHeaderOfWritten(file: Bytes, shards: uint32)
    requires PowerOfTwo(shards) && |file| >= FIXED_HEADER_SIZE + 8 * shards
    requires file[..FIXED_HEADER_SIZE] == FixedHeader(shards)
    ensures HeaderFault(file).None? && Get32(file[8..12]) == shards
  {
    hide PowerOfTwo;
    var fixed := FixedHeader(shards);
    RoundTrip16(FORMAT_VERSION);
    RoundTrip16(0);
    RoundTrip32(shards);
    assert file[..4] == fixed[..4] == SNAPSHOT_MAGIC;
    assert file[4..6] == fixed[4..6] == Put16(FORMAT_VERSION);
    assert file[6..8] == fixed[6..8] == Put16(0);
    assert file[8..12] == fixed[8..12] == Put32(shards);
  }

  lemma HeaderOfWritten(file: Bytes, sequences: seq<uint64>)
    requires |sequences| <= 0xFFFF_FFFF && PowerOfTwo(|sequences|)
    requires |file| >= |SnapshotHeader(sequences)| && file[..|SnapshotHeader(sequences)|] == SnapshotHeader(sequences)
    ensures HeaderFault(file).None?
    ensures Get32(file[8..12]) == |sequences|
    ensures ReadSequences(file, |sequences|) == sequences
  {
    hide EncodeSequences, DecodeSequences, PowerOfTwo, FixedHeader, HeaderFault;
    var header := SnapshotHeader(sequences);
    assert file[..FIXED_HEADER_SIZE] == header[..FIXED_HEADER_SIZE] == FixedHeader(|sequences|);
    FixedHeaderOfWritten(file, |sequences|);
    assert file[FIXED_HEADER_SIZE..|header|] == header[FIXED_HEADER_SIZE..] == EncodeSequences(sequences);
    SequencesRoundTrip(sequences);
  }

  /** A snapshot this store wrote loads to exactly what was written. */
  lemma SnapshotRoundTrip(p: Platform, s: Snapshot)
    requires WellFormed(p, s)
    ensures ReadSnapshot(p, EncodeSnapshot(p, s)) == Read(s)
  {
    hide EncodeItems, HeaderFault, ReadSequences, SnapshotHeader, ItemsFrom, EncodableItem, PowerOfTwo;
    var file := EncodeSnapshot(p, s);
    var header := SnapshotHeader(s.sequences);
    assert file[..|header|] == header;
    HeaderOfWritten(file, s.sequences);
    assert file[|header|..] == EncodeItems(p, s.items);
    ItemsOfEncoded(p, file, s.sequences, |header|, s.items);
  }

  lemma HeaderCanonical(file: Bytes)
    requires HeaderFault(file).None?
    ensures
      var shards := Get32(file[8..12]);
      && PowerOfTwo(shards)
      && file[..FIXED_HEADER_SIZE + 8 * shards] == SnapshotHeader(ReadSequences(file, shards))
  {
    hide EncodeSequences, DecodeSequences, PowerOfTwo;
    var shards: nat := Get32(file[8..12]);
    var sequences := ReadSequences(file, shards);
    Canonical16(file[4..6]);
    Canonical16(file[6..8]);
    Canonical32(file[8..12]);
    assert file[..FIXED_HEADER_SIZE] == file[..4] + file[4..6] + file[6..8] + file[8..12];
    var slots := file[FIXED_HEADER_SIZE..FIXED_HEADER_SIZE + 8 * shards];
    SequencesCanonical(slots, shards);
    assert file[..FIXED_HEADER_SIZE + 8 * shards] == file[..FIXED_HEADER_SIZE] + slots;
  }

  /** Snapshots get no tail tolerance: whatever file loads is byte for byte the
      encoding of what it loads to. */
  lemma SnapshotCanonical(p: Platform, file: Bytes)
    requires ReadSnapshot(p, file).Read?
    ensures WellFormed(p, ReadSnapshot(p, file).snapshot)
    ensures EncodeSnapshot(p, ReadSnapshot(p, file).snapshot) == file
  {
    hide EncodeItems, HeaderFault, ReadSequences, SnapshotHeader, ItemsFrom, EncodableItem, Covered;
    var shards: nat := Get32(file[8..12]);
    var start := FIXED_HEADER_SIZE + 8 * shards;
    HeaderCanonical(file);
    ItemsCanonical(p, file, ReadSequences(file, shards), start);
    assert file == file[..start] + file[start..];
  }
}
