/** What recovery makes of a snapshot file that is not as it was written: it is refused,
    and an older one does not take its place. */
module SnapshotDamage {
  import opened Base
  import opened LittleEndian
  import opened Frames
  import opened SnapshotCodec
  import opened Recovery

  // ----- the header -----

  /** The first thing wrong with a header decides, and the offset says where it is. */
  lemma DamagedHeader(p: Platform, magic: Bytes, version: uint16, flags: uint16, count: uint32, rest: Bytes)
    requires |magic| == 4
    ensures
      var r := ReadSnapshot(p, magic + Put16(version) + Put16(flags) + Put32(count) + rest);
      if magic != [0x43, 0x53, 0x4E, 0x50] then r == Unreadable(UnknownMagic, 0)
      else if version != 1 then r == Unreadable(UnsupportedVersion, 4)
      else if flags != 0 then r == Unreadable(UnsupportedFlags, 6)
      else if !PowerOfTwo(count) then r == Unreadable(InvalidShardCount, 8)
      else if |rest| < 8 * count then r == Unreadable(UnexpectedEof, 12)
      else r.Unreadable? ==> r.at >= 12 + 8 * count
  {
    hide ItemsFrom, PowerOfTwo, DecodeSequences;
    var file := magic + Put16(version) + Put16(flags) + Put32(count) + rest;
    RoundTrip16(version);
    RoundTrip16(flags);
    RoundTrip32(count);
    assert file[..4] == magic && file[4..6] == Put16(version) && file[6..8] == Put16(flags) && file[8..12] == Put32(count);
    if HeaderFault(file).None? { UnreadableBehind(p, file, ReadSequences(file, count), 12 + 8 * count); }
  }

  lemma ShortHeader(p: Platform, file: Bytes)
    requires |file| < 12
    ensures ReadSnapshot(p, file) == Unreadable(UnexpectedEof, 0)
  {
  }

  lemma {:induction false} UnreadableBehind(p: Platform, file: Bytes, sequences: seq<uint64>, offset: nat)
    requires offset <= |file| && |sequences| > 0
    ensures
      var r := ItemsFrom(p, file, sequences, offset);
      r.Unreadable? ==> r.at >= offset
    decreases |file| - offset
  {
    hide ReadFrame, Judge;
    if offset < |file| {
      match ReadFrame(p, file, offset, ITEM_FIXED_SIZE)
      case Short | Overrun =>
      case Corrupt(_) =>
      case Framed(body, end) =>
        match Judge(p, sequences, body)
        case Accept(_) => UnreadableBehind(p, file, sequences, end);
        case Reject(_) =>
    }
  }

  // ----- the entries -----

  lemma {:induction false} ItemsThen(p: Platform, file: Bytes, sequences: seq<uint64>, offset: nat, items: seq<Item>, tail: Bytes)
    requires offset <= |file| && AllEncodableItems(items) && |sequences| > 0 && AllCovered(p, sequences, items)
    requires file[offset..] == EncodeItems(p, items) + tail
    ensures ItemsFrom(p, file, sequences, offset) == Prepend(items, ItemsFrom(p, file, sequences, |file| - |tail|))
    decreases items
  {
    hide EncodeItemBody, EncodeFrame, ReadFrame, Judge, EncodableItem, Covered;
    if items == [] {
      assert |file| - |tail| == offset;
      PrependNothing(ItemsFrom(p, file, sequences, offset));
    } else {
      var first := EncodeItem(p, items[0]);
      var end := offset + |first|;
      assert file[offset..end] == file[offset..][..|first|] == first;
      ReadWritten(p, file, offset, EncodeItemBody(items[0]), ITEM_FIXED_SIZE);
      JudgeEncoded(p, sequences, items[0]);
      assert file[end..] == file[offset..][|first|..] == EncodeItems(p, items[1..]) + tail;
      ItemsThen(p, file, sequences, end, items[1..], tail);
      PrependTwice([items[0]], items[1..], ItemsFrom(p, file, sequences, |file| - |tail|));
      assert [items[0]] + items[1..] == items;
    }
  }

  lemma PrependNothing(r: Reading)
    ensures Prepend([], r) == r
  {
    assert r.Read? ==> [] + r.snapshot.items == r.snapshot.items;
  }

  /** A snapshot with something behind its last entry: only that is left to judge. */
  lemma Behind(p: Platform, s: Snapshot, tail: Bytes)
    requires WellFormed(p, s)
    ensures
      var whole := EncodeSnapshot(p, s);
      ReadSnapshot(p, whole + tail) == Prepend(s.items, ItemsFrom(p, whole + tail, s.sequences, |whole|))
  {
    hide EncodeItems, ItemsFrom, HeaderFault, SnapshotHeader, PowerOfTwo, DecodeSequences;
    var whole := EncodeSnapshot(p, s);
    var file := whole + tail;
    var header := SnapshotHeader(s.sequences);
    assert file[..|header|] == header;
    assert |s.sequences| > 0 by { SomeShards(|s.sequences|); }
    HeaderOfWritten(file, s.sequences);
    assert file[|header|..] == EncodeItems(p, s.items) + tail;
    ItemsThen(p, file, s.sequences, |header|, s.items, tail);
  }

  lemma SomeShards(n: nat)
    requires PowerOfTwo(n)
    ensures n > 0
  {
  }

  /** An entry whose checksum fails: refused, also at the very end of the file. */
  lemma BadChecksum(p: Platform, s: Snapshot, body: Bytes, sum: uint32, rest: Bytes)
    requires WellFormed(p, s) && Fits(body) && |body| >= ITEM_FIXED_SIZE && sum != p.crc(body)
    ensures
      var whole := EncodeSnapshot(p, s);
      ReadSnapshot(p, whole + (BadFrame(body, sum) + rest)) == Unreadable(ChecksumMismatch, |whole|)
  {
    hide EncodeSnapshot, ReadFrame, BadFrame, WellFormed;
    var whole, bad := EncodeSnapshot(p, s), BadFrame(body, sum);
    var file := whole + (bad + rest);
    assert |s.sequences| > 0 by { HasShards(p, s); }
    Behind(p, s, bad + rest);
    assert file[|whole|..|whole| + |bad|] == bad;
    ReadBad(p, file, |whole|, body, sum, ITEM_FIXED_SIZE);
  }

  lemma HasShards(p: Platform, s: Snapshot)
    requires WellFormed(p, s)
    ensures |s.sequences| > 0
  {
  }

  /** An entry whose length cannot be read, is too small for an entry, or runs past the
      end, as in a file cut short: refused. No snapshot has a tail to trim. */
  lemma BadLength(p: Platform, s: Snapshot, tail: Bytes)
    requires WellFormed(p, s)
    requires tail != [] && (|tail| < 4 || Get32(tail[..4]) < 22 || 4 + Get32(tail[..4]) > |tail|)
    ensures
      var whole := EncodeSnapshot(p, s);
      ReadSnapshot(p, whole + tail) == Unreadable(UnexpectedEof, |whole|)
  {
    hide EncodeSnapshot, WellFormed, Encode, Decode;
    var whole := EncodeSnapshot(p, s);
    var file := whole + tail;
    assert |s.sequences| > 0 by { HasShards(p, s); }
    Behind(p, s, tail);
    if |tail| >= 4 {
      assert file[|whole|..|whole| + 4] == tail[..4];
      Canonical32(tail[..4]);
      ReadBadLength(p, file, |whole|, Get32(tail[..4]), ITEM_FIXED_SIZE);
    }
  }

  /** A whole entry with the right checksum is refused if its key is longer than it is, or
      if it is newer than its shard's sequence; and for nothing else. */
  lemma BadFields(p: Platform, s: Snapshot, keyLength: uint16, deadline: int64, sequence: uint64, rest: Bytes, behind: Bytes)
    requires WellFormed(p, s) && 22 + |rest| <= 0xFFFF_FFFF
    ensures |s.sequences| > 0
    ensures
      var whole := EncodeSnapshot(p, s);
      var frame := EncodeFrame(p, FixedPart(keyLength, deadline, sequence) + rest);
      var r := ReadSnapshot(p, whole + (frame + behind));
      if keyLength > |rest| then r == Unreadable(KeyTooLong, |whole|)
      else if sequence > s.sequences[ShardOf(p, |s.sequences|, rest[..keyLength])] then r == Unreadable(EntryBeyondShard, |whole|)
      else r.Unreadable? ==> r.at >= |whole| + |frame|
  {
    hide EncodeSnapshot, WellFormed, FixedPart, ReadFrame, EncodeFrame, ReadFields, ItemsFrom;
    var whole, body := EncodeSnapshot(p, s), FixedPart(keyLength, deadline, sequence) + rest;
    var frame := EncodeFrame(p, body);
    var file := whole + (frame + behind);
    HasShards(p, s);
    Behind(p, s, frame + behind);
    assert file[|whole|..|whole| + |frame|] == frame;
    ReadWritten(p, file, |whole|, body, ITEM_FIXED_SIZE);
    FieldsOfEncoded(keyLength, deadline, sequence, rest);
    NextEntry(p, file, s.sequences, |whole|, body, |whole| + |frame|);
    UnreadableBehind(p, file, s.sequences, |whole| + |frame|);
  }

  lemma NextEntry(p: Platform, file: Bytes, sequences: seq<uint64>, offset: nat, body: Bytes, end: nat)
    requires offset < end <= |file| && |sequences| > 0 && |body| >= ITEM_FIXED_SIZE
    requires ReadFrame(p, file, offset, ITEM_FIXED_SIZE) == Framed(body, end)
    ensures
      var v, r := Judge(p, sequences, body), ItemsFrom(p, file, sequences, offset);
      if v.Reject? then r == Unreadable(v.fault, offset)
      else r == Prepend([v.item], ItemsFrom(p, file, sequences, end))
  {
    hide ReadFrame, Judge;
  }

  // ----- recovery -----

  /** If the newest snapshot does not read, recovery and reconstruction fail for the reason
      it does not: no older snapshot and no log stands in for it. */
  lemma NewestUnreadableRefuses(p: Platform, dir: Directory, shards: nat, newest: uint64, only: Option<nat>, through: uint64)
    requires shards > 0 && newest in dir.snapshots && forall x :: x in dir.snapshots ==> x <= newest
    requires ReadSnapshot(p, dir.snapshots[newest]).Unreadable?
    ensures
      var fault := ReadSnapshot(p, dir.snapshots[newest]).fault;
      && RecoverLog(p, dir, shards) == RecoveryRefused(fault)
      && RecoverImage(p, dir, shards, only, through) == ReconstructionRefused(fault)
  {
    hide ReadSnapshot;
    NewestIsLast(dir, newest);
  }

  lemma NewestIsLast(dir: Directory, newest: uint64)
    requires newest in dir.snapshots && forall x :: x in dir.snapshots ==> x <= newest
    ensures |SnapshotNames(dir)| > 0 && SnapshotNames(dir)[|SnapshotNames(dir)| - 1] == newest
  {
    var names := SnapshotNames(dir);
    assert newest in names;
    assert names[|names| - 1] in names;
  }
}
