/** What `Set` checks before it queues an entry, and why that is the right check. */
module Admission {
  import opened Base
  import opened Replay
  import opened WalCodec
  import opened Format
  import opened Recency

  datatype Verdict = Accepted | KeyTooLarge | RecordTooLarge | ExceedsShard

  /** `validateEntrySize`. */
  function ValidateEntrySize(key: Key, value: Bytes, slice: nat): Verdict {
    if |key| > 0xFFFF then KeyTooLarge
    else if RECORD_FIXED_SIZE + |key| + |value| > 0xFFFF_FFFF then RecordTooLarge
    else if ENTRY_OVERHEAD + |key| + |value| > slice then ExceedsShard
    else Accepted
  }

  /** An entry is accepted if and only if its record can be written to the log and applying
      it leaves it in its shard, whatever the shard holds. It is then found until its
      deadline; one that only exceeds the shard would have emptied it. */
  lemma AcceptedIffApplicable(p: Platform, s: seq<Item>, item: Item, now: int, slice: nat, later: int)
    requires Distinct(s) && now <= later && (item.entry.deadline == 0 || now < item.entry.deadline)
    ensures
      var op := Set(item.key, item.entry.value, item.entry.deadline);
      var v, after := ValidateEntrySize(item.key, item.entry.value, slice), ApplySet(s, item, now, slice);
      && (v == Accepted <==>
            && |item.key| < 0x1_0000 && Encodable(op) && |EncodeRecord(p, item.entry.sequence, op)| < 0x1_0000_0000
            && item in after)
      && (v == Accepted ==>
            GetValue(after, item.key, later)
              == if item.entry.deadline == 0 || later < item.entry.deadline then Some(item.entry.value) else None)
      && (v == ExceedsShard ==> after == [])
  {
    hide ApplySet, GetValue, Encodable, EncodeRecord;
    AdmittedExactly(p, item.entry.sequence, Set(item.key, item.entry.value, item.entry.deadline));
    TooLargeEmptiesShard(s, item, now, slice);
    if 72 + |item.key| + |item.entry.value| <= slice {
      OwnSetSurvives(s, item, now, slice);
      SetThenGet(s, item, now, slice, later);
    }
  }
}
