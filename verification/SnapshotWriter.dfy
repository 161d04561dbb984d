/** A snapshot file as it is written: a header without sequences, the entries of one
    shard after the other, and the header once more, complete. */
module SnapshotWriter {
  import opened Base
  import opened LittleEndian
  import opened Slices
  import opened Frames
  import opened RecordBuffer
  import opened Recovery
  import opened SnapshotCodec

  const ENTRY_KEY_LENGTH_OFFSET := 8
  const ENTRY_DEADLINE_OFFSET := 10
  const ENTRY_SEQUENCE_OFFSET := 18
  const ENTRY_KEY_OFFSET := 26

  // ----- one entry -----

  method FillEntry(record: array<byte>, item: Item)
    requires EncodableItem(item) && record.Length == ENTRY_KEY_OFFSET + |item.key| + |item.entry.value|
    modifies record
    ensures record[ENTRY_KEY_LENGTH_OFFSET..] == EncodeItemBody(item)
    ensures record[..ENTRY_KEY_LENGTH_OFFSET] == old(record[..ENTRY_KEY_LENGTH_OFFSET])
  {
    hide Encode;
    PutUint(record, ENTRY_KEY_LENGTH_OFFSET, |item.key|, 2);
    PutUint(record, ENTRY_DEADLINE_OFFSET, Unsigned(item.entry.deadline), 8);
    PutUint(record, ENTRY_SEQUENCE_OFFSET, item.entry.sequence, 8);
    var end := ENTRY_KEY_OFFSET + |item.key|;
    Copy(record, ENTRY_KEY_OFFSET, item.key);
    Copy(record, end, item.entry.value);
    ghost var all := record[..];
    assert all[ENTRY_KEY_LENGTH_OFFSET..ENTRY_DEADLINE_OFFSET] == Put16(|item.key|);
    assert all[ENTRY_DEADLINE_OFFSET..ENTRY_SEQUENCE_OFFSET] == Put64(Unsigned(item.entry.deadline));
    assert all[ENTRY_SEQUENCE_OFFSET..ENTRY_KEY_OFFSET] == Put64(item.entry.sequence);
    assert all[ENTRY_KEY_OFFSET..end] == item.key && all[end..] == item.entry.value;
    EntryFields(all, end);
  }

  lemma EntryFields(all: Bytes, end: nat)
    requires ENTRY_KEY_OFFSET <= end <= |all|
    ensures all[ENTRY_KEY_LENGTH_OFFSET..]
         == all[ENTRY_KEY_LENGTH_OFFSET..ENTRY_DEADLINE_OFFSET] + all[ENTRY_DEADLINE_OFFSET..ENTRY_SEQUENCE_OFFSET]
          + all[ENTRY_SEQUENCE_OFFSET..ENTRY_KEY_OFFSET] + (all[ENTRY_KEY_OFFSET..end] + all[end..])
  {
  }

  /** `encodeSnapshotEntry`: the length prefix first, the checksum last. */
  method EncodeEntry(p: Platform, item: Item) returns (r: Bytes)
    requires EncodableItem(item)
    ensures r == EncodeItem(p, item)
  {
    hide Encode, EncodeItemBody;
    var record := new byte[ENTRY_KEY_OFFSET + |item.key| + |item.entry.value|](_ => 0);
    PutUint(record, 0, record.Length - LENGTH_SIZE, 4);
    ghost var prefix := record[..LENGTH_SIZE];
    assert prefix == Put32(record.Length - LENGTH_SIZE);
    FillEntry(record, item);
    assert record[..LENGTH_SIZE] == record[..ENTRY_KEY_LENGTH_OFFSET][..LENGTH_SIZE] == prefix;
    ghost var body := record[ENTRY_KEY_LENGTH_OFFSET..];
    PutUint(record, LENGTH_SIZE, p.crc(record[ENTRY_KEY_LENGTH_OFFSET..]), 4);
    assert record[ENTRY_KEY_LENGTH_OFFSET..] == body && record[..LENGTH_SIZE] == prefix;
    assert record[..] == record[..LENGTH_SIZE] + record[LENGTH_SIZE..ENTRY_KEY_LENGTH_OFFSET] + record[ENTRY_KEY_LENGTH_OFFSET..];
    r := record[..];
  }

  // ----- streams -----

  lemma {:induction false} EncodeItemsAppend(p: Platform, a: seq<Item>, b: seq<Item>)
    requires AllEncodableItems(a) && AllEncodableItems(b)
    ensures AllEncodableItems(a + b) && EncodeItems(p, a + b) == EncodeItems(p, a) + EncodeItems(p, b)
    decreases |a|
  {
    hide EncodeItem, EncodableItem;
    if a == [] {
      assert a + b == b;
    } else {
      EncodeItemsAppend(p, a[1..], b);
      assert (a + b)[1..] == a[1..] + b;
    }
  }

  lemma OneItem(p: Platform, item: Item)
    requires EncodableItem(item)
    ensures EncodeItems(p, [item]) == EncodeItem(p, item)
  {
    hide EncodeItem;
    assert EncodeItems(p, [item][1..]) == [];
  }

  lemma {:induction false} EncodeSequencesNext(sequences: seq<uint64>, sequence: uint64)
    ensures EncodeSequences(sequences + [sequence]) == EncodeSequences(sequences) + Put64(sequence)
    decreases |sequences|
  {
    hide Put64;
    if sequences == [] {
      assert (sequences + [sequence])[1..] == [];
    } else {
      EncodeSequencesNext(sequences[1..], sequence);
      assert (sequences + [sequence])[1..] == sequences[1..] + [sequence];
    }
  }

  // ----- the file -----

  /** What the writer of a snapshot finds in one shard under its lock. */
  datatype Captured = Captured(sequence: uint64, items: seq<Item>)

  function Sequences(parts: seq<Captured>): (r: seq<uint64>)
    ensures |r| == |parts|
  {
    if parts == [] then [] else Sequences(parts[..|parts| - 1]) + [parts[|parts| - 1].sequence]
  }

  function Items(parts: seq<Captured>): seq<Item> {
    if parts == [] then [] else Items(parts[..|parts| - 1]) + parts[|parts| - 1].items
  }

  predicate AllEncodableParts(parts: seq<Captured>) { forall i :: 0 <= i < |parts| ==> AllEncodableItems(parts[i].items) }

  lemma {:induction false} PartsEncodable(parts: seq<Captured>)
    requires AllEncodableItems(Items(parts))
    ensures AllEncodableParts(parts)
    decreases |parts|
  {
    hide EncodableItem;
    if parts != [] {
      var n := |parts| - 1;
      var before := Items(parts[..n]);
      assert forall i :: 0 <= i < |before| ==> before[i] == Items(parts)[i];
      assert forall i :: 0 <= i < |parts[n].items| ==> parts[n].items[i] == Items(parts)[|before| + i];
      PartsEncodable(parts[..n]);
      assert forall i :: 0 <= i < n ==> parts[..n][i] == parts[i];
    }
  }

  /** `newSnapshotHeader`: everything but the sequences. */
  method NewHeader(shards: nat) returns (header: array<byte>)
    requires shards <= 0xFFFF_FFFF
    ensures fresh(header) && header.Length == FIXED_HEADER_SIZE + 8 * shards
    ensures header[..FIXED_HEADER_SIZE] == FixedHeader(shards)
  {
    hide Encode;
    header := new byte[FIXED_HEADER_SIZE + 8 * shards](_ => 0);
    Copy(header, 0, SNAPSHOT_MAGIC);
    PutUint(header, 4, FORMAT_VERSION, 2);
    PutUint(header, 6, 0, 2);
    PutUint(header, 8, shards, 4);
    assert header[..4] == SNAPSHOT_MAGIC && header[4..6] == Put16(FORMAT_VERSION);
    assert header[6..8] == Put16(0) && header[8..12] == Put32(shards);
    assert header[..12] == header[..4] + header[4..6] + header[6..8] + header[8..12];
  }

  /** The entries of one shard, in the order its map is iterated. */
  method AppendEntries(p: Platform, file: Bytes, items: seq<Item>) returns (r: Bytes)
    requires AllEncodableItems(items)
    ensures r == file + EncodeItems(p, items)
  {
    hide EncodeItem, EncodeItems, EncodableItem;
    r := file;
    assert EncodeItems(p, []) == [] by { NoItems(p); }
    for i := 0 to |items|
      invariant r == file + EncodeItems(p, items[..i])
    {
      var entry := EncodeEntry(p, items[i]);
      EncodeItemsAppend(p, items[..i], [items[i]]);
      OneItem(p, items[i]);
      assert items[..i + 1] == items[..i] + [items[i]];
      r := r + entry;
    }
    assert items[..|items|] == items;
  }

  lemma NoItems(p: Platform)
    ensures EncodeItems(p, []) == []
  {
  }

  /** The sequences go into the header, and the smallest of them names the file. */
  method FillHeader(header: array<byte>, sequences: seq<uint64>) returns (lowest: uint64)
    requires 0 < |sequences| && header.Length == FIXED_HEADER_SIZE + 8 * |sequences|
    modifies header
    ensures header[..FIXED_HEADER_SIZE] == old(header[..FIXED_HEADER_SIZE])
    ensures header[FIXED_HEADER_SIZE..] == EncodeSequences(sequences)
    ensures lowest == Lowest(sequences)
  {
    hide Encode, Lowest, EncodeSequences;
    lowest := sequences[0];
    var at := FIXED_HEADER_SIZE;
    NoSequences();
    for i := 0 to |sequences|
      invariant at == FIXED_HEADER_SIZE + 8 * i <= header.Length
      invariant header[..FIXED_HEADER_SIZE] == old(header[..FIXED_HEADER_SIZE])
      invariant header[FIXED_HEADER_SIZE..at] == EncodeSequences(sequences[..i])
      invariant lowest in sequences && forall j :: 0 <= j < i ==> lowest <= sequences[j]
    {
      ghost var done := header[FIXED_HEADER_SIZE..at];
      PutUint(header, at, sequences[i], 8);
      assert header[FIXED_HEADER_SIZE..at + 8] == done + header[at..at + 8];
      EncodeSequencesNext(sequences[..i], sequences[i]);
      assert sequences[..i + 1] == sequences[..i] + [sequences[i]];
      if sequences[i] < lowest { lowest := sequences[i]; }
      at := at + 8;
    }
    assert sequences[..|sequences|] == sequences;
  }

  lemma NoSequences()
    ensures EncodeSequences([]) == []
  {
  }

  /** `writeSnapshotAt`: the file that is renamed into place is exactly the encoding of
      what was captured, and it is named for the lowest sequence. */
  method WriteSnapshot(p: Platform, parts: seq<Captured>) returns (file: Bytes, lowest: uint64)
    requires WellFormed(p, Snapshot(Sequences(parts), Items(parts)))
    ensures |parts| > 0 && lowest == Lowest(Sequences(parts))
    ensures file == EncodeSnapshot(p, Snapshot(Sequences(parts), Items(parts)))
  {
    hide EncodeItems, EncodeSequences, AllEncodableItems, Lowest, FixedHeader, PowerOfTwo, AllCovered;
    assert |parts| > 0 by { SomeShard(|parts|); }
    PartsEncodable(parts);
    var header := NewHeader(|parts|);
    file := header[..];
    var sequences: seq<uint64> := [];
    ghost var placeholder := file;
    NoneEncodable();
    NoItems(p);
    for i := 0 to |parts|
      invariant sequences == Sequences(parts[..i])
      invariant AllEncodableItems(Items(parts[..i])) && file == placeholder + EncodeItems(p, Items(parts[..i]))
      invariant header[..] == placeholder
    {
      SliceOfPrefix(parts, i + 1, 0, i);
      EncodeItemsAppend(p, Items(parts[..i]), parts[i].items);
      sequences := sequences + [parts[i].sequence];
      file := AppendEntries(p, file, parts[i].items);
    }
    assert parts[..|parts|] == parts;
    lowest := FillHeader(header, sequences);
    ghost var full := header[..];
    assert full[..FIXED_HEADER_SIZE] == placeholder[..FIXED_HEADER_SIZE];
    assert full == full[..FIXED_HEADER_SIZE] + full[FIXED_HEADER_SIZE..];
    file := header[..] + file[header.Length..];
  }

  lemma SomeShard(n: nat)
    requires PowerOfTwo(n)
    ensures n > 0
  {
  }

  lemma NoneEncodable()
    ensures Items([]) == [] && AllEncodableItems([])
  {
  }
}
