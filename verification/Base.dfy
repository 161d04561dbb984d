/** Vocabulary shared by every module: machine integers, bytes, entries, and the
    checksum and key hash, which stay arbitrary functions. */
module Base {

  const MAX_SEQUENCE: int := 0xFFFF_FFFF_FFFF_FFFF

  type byte = x: int | 0 <= x < 0x100
  type uint16 = x: int | 0 <= x < 0x1_0000
  type uint32 = x: int | 0 <= x < 0x1_0000_0000
  type uint64 = x: int | 0 <= x <= MAX_SEQUENCE
  type int64 = x: int | -0x8000_0000_0000_0000 <= x < 0x8000_0000_0000_0000

  type Bytes = seq<byte>
  type Key = Bytes

  datatype Option<+T> = None | Some(value: T)

  const FORMAT_VERSION: uint16 := 1

  /** Why a file is refused. */
  datatype Fault =
    | UnexpectedEof | UnknownMagic | UnsupportedVersion | UnsupportedFlags
    | ChecksumMismatch | KeyTooLong | SequenceGap | WrongFirstSequence
    | DeleteWithDeadline | DeleteWithValue | UnknownOperation
    | InvalidShardCount | EntryBeyondShard | SequenceSpaceExhausted | SnapshotTooNew

  /** What a store holds for one key. A zero deadline means "never expires". */
  datatype Entry = Entry(value: Bytes, deadline: int64, sequence: uint64)

  type Image = map<Key, Entry>

  /** The checksum (CRC32C) and the key hash (FNV-1a) are parameters: nothing
      proved here depends on which functions they are. */
  datatype Platform = Platform(crc: Bytes -> uint32, hash: Key -> uint64)

  /** `hashKey(key) & (shards - 1)`; the shard count is a power of two wherever
      the store accepts it, so the mask is a remainder. */
  function ShardOf(p: Platform, shards: nat, key: Key): (index: nat)
    requires shards > 0
    ensures index < shards
  {
    p.hash(key) % shards
  }

  function Lookup(m: Image, k: Key): Option<Entry> {
    if k in m then Some(m[k]) else None
  }

  predicate DeadlinePassed(deadline: int64, now: int) {
    deadline != 0 && now >= deadline
  }

  predicate PowerOfTwo(n: nat) {
    n == 1 || (n > 1 && n % 2 == 0 && PowerOfTwo(n / 2))
  }

  /** Two images with the same lookups are the same image. */
  lemma SameLookups(a: Image, b: Image)
    requires forall k :: Lookup(a, k) == Lookup(b, k)
    ensures a == b
  {
    forall k | k in a || k in b
      ensures k in a && k in b && a[k] == b[k]
    {
      assert Lookup(a, k) == Lookup(b, k);
    }
  }
}
