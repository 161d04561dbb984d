/** The meaning of a log. A history is the list of accepted changes; record `i`
    (from zero) carries sequence `i + 1`. Plain replay of a prefix is the
    specification every recovery path is measured against. */
module Replay {
  import opened Base

  /** One accepted change, as `Set`/`SetTTL`/`Delete` submit it. */
  datatype Op = Set(key: Key, value: Bytes, deadline: int64) | Delete(key: Key)

  type History = seq<Op>

  function ApplyOp(m: Image, op: Op, sequence: uint64): Image {
    match op
    case Set(key, value, deadline) => m[key := Entry(value, deadline, sequence)]
    case Delete(key) => m - {key}
  }

  /** Replay of the first `n` records. */
  function ReplayTo(h: History, n: nat): Image
    requires n <= |h| <= MAX_SEQUENCE
  {
    if n == 0 then map[] else ApplyOp(ReplayTo(h, n - 1), h[n - 1], n)
  }

  /** The last writer of `k` among the first `n` records decides. */
  function KeyAt(h: History, n: nat, k: Key): Option<Entry>
    requires n <= |h| <= MAX_SEQUENCE
  {
    if n == 0 then None
    else if h[n - 1].key != k then KeyAt(h, n - 1, k)
    else match h[n - 1]
      case Set(_, value, deadline) => Some(Entry(value, deadline, n))
      case Delete(_) => None
  }

  lemma {:induction false} ReplayLookup(h: History, n: nat, k: Key)
    requires n <= |h| <= MAX_SEQUENCE
    ensures Lookup(ReplayTo(h, n), k) == KeyAt(h, n, k)
  {
    if n > 0 { ReplayLookup(h, n - 1, k); }
  }

  lemma {:induction false} KeyAtSequence(h: History, n: nat, k: Key)
    requires n <= |h| <= MAX_SEQUENCE
    ensures KeyAt(h, n, k).Some? ==> 1 <= KeyAt(h, n, k).value.sequence <= n
  {
    if n > 0 { KeyAtSequence(h, n - 1, k); }
  }

  /** Replay of a prefix does not look past the prefix. */
  lemma {:induction false} KeyAtPrefix(h: History, h': History, n: nat, k: Key)
    requires n <= |h| <= MAX_SEQUENCE && n <= |h'| <= MAX_SEQUENCE
    requires h[..n] == h'[..n]
    ensures KeyAt(h, n, k) == KeyAt(h', n, k)
  {
    if n > 0 {
      assert h[n - 1] == h[..n][n - 1] == h'[..n][n - 1] == h'[n - 1];
      assert h[..n - 1] == h[..n][..n - 1] == h'[..n][..n - 1] == h'[..n - 1];
      KeyAtPrefix(h, h', n - 1, k);
    }
  }

  /** A stretch of records about other keys leaves a key as it was. */
  lemma {:induction false} KeyAtQuiet(h: History, n: nat, m: nat, k: Key)
    requires n <= m <= |h| <= MAX_SEQUENCE && forall i :: n <= i < m ==> h[i].key != k
    ensures KeyAt(h, m, k) == KeyAt(h, n, k)
    decreases m
  {
    if n < m { KeyAtQuiet(h, n, m - 1, k); }
  }

  /** The entry of a key is the one its last `Set` record made. */
  lemma {:induction false} KeyAtRecord(h: History, n: nat, k: Key)
    requires n <= |h| <= MAX_SEQUENCE && KeyAt(h, n, k).Some?
    ensures
      var e := KeyAt(h, n, k).value;
      1 <= e.sequence <= n && h[e.sequence - 1] == Set(k, e.value, e.deadline)
  {
    if h[n - 1].key != k { KeyAtRecord(h, n - 1, k); }
  }

  // ----- filtered replay: what recovery does on top of a snapshot image -----

  /** Which records recovery re-applies. `floors[ShardOf(key)]` is the sequence
      up to which the base image already covers a key (all zero with no
      snapshot); `only` restricts the run to one configured shard. */
  datatype Filter = Filter(shards: nat, floor: Floor, only: Option<nat>)
  datatype Floor = Everywhere(sequence: uint64) | PerShard(sequences: seq<uint64>)

  predicate ValidFilter(f: Filter) {
    f.shards > 0 && (f.floor.PerShard? ==> |f.floor.sequences| == f.shards)
  }

  function FloorOf(p: Platform, f: Filter, k: Key): uint64
    requires ValidFilter(f)
  {
    match f.floor
    case Everywhere(sequence) => sequence
    case PerShard(sequences) => sequences[ShardOf(p, f.shards, k)]
  }

  predicate Wanted(p: Platform, f: Filter, k: Key)
    requires ValidFilter(f)
  {
    f.only.None? || ShardOf(p, f.shards, k) == f.only.value
  }

  predicate Applies(p: Platform, f: Filter, k: Key, sequence: uint64)
    requires ValidFilter(f)
  {
    Wanted(p, f, k) && sequence > FloorOf(p, f, k)
  }

  /** Re-apply `ops`, whose first record carries sequence `base + 1`. */
  function Fold(p: Platform, f: Filter, m: Image, ops: seq<Op>, base: nat): Image
    requires ValidFilter(f) && base + |ops| <= MAX_SEQUENCE
  {
    if ops == [] then m
    else
      var n := |ops| - 1;
      var before := Fold(p, f, m, ops[..n], base);
      if Applies(p, f, ops[n].key, base + |ops|) then ApplyOp(before, ops[n], base + |ops|) else before
  }

  lemma {:induction false} FoldAppend(p: Platform, f: Filter, m: Image, a: seq<Op>, b: seq<Op>, base: nat)
    requires ValidFilter(f) && base + |a| + |b| <= MAX_SEQUENCE
    ensures Fold(p, f, m, a + b, base) == Fold(p, f, Fold(p, f, m, a, base), b, base + |a|)
  {
    if b == [] {
      assert a + b == a;
    } else {
      var n := |b| - 1;
      assert (a + b)[..|a| + n] == a + b[..n];
      FoldAppend(p, f, m, a, b[..n], base);
    }
  }

  // ----- agreement up to reclaimed expired entries -----

  /** `held` is what a view holds for a key whose durable state is `truth`: the
      same thing, or nothing if that state has expired by `now`. */
  predicate Agrees(held: Option<Entry>, truth: Option<Entry>, now: int) {
    held == truth || (held.None? && DeadlinePassed(truth.value.deadline, now))
  }

  function Live(m: Image, now: int): Image {
    map k | k in m && !DeadlinePassed(m[k].deadline, now) :: m[k]
  }

  /** Agreement on every key at `now` is the same live view at `now` and ever after. */
  lemma AgreementIsLiveEquality(m: Image, h: History, n: nat, now: int, later: int)
    requires n <= |h| <= MAX_SEQUENCE && now <= later
    requires forall k :: Agrees(Lookup(m, k), KeyAt(h, n, k), now)
    ensures Live(m, later) == Live(ReplayTo(h, n), later)
  {
    forall k
      ensures Lookup(Live(m, later), k) == Lookup(Live(ReplayTo(h, n), later), k)
    {
      ReplayLookup(h, n, k);
      assert Agrees(Lookup(m, k), KeyAt(h, n, k), now);
    }
    SameLookups(Live(m, later), Live(ReplayTo(h, n), later));
  }

  // ----- the fuzzy snapshot theorem, one key at a time -----

  /** Replaying part of what the image already covers either leaves a key alone
      or brings it to exactly its state at that point of the history. */
  lemma {:induction false} FoldWithinCover(p: Platform, f: Filter, m: Image, h: History, lo: nat, j: nat, k: Key)
    requires ValidFilter(f) && Wanted(p, f, k)
    requires lo <= j <= |h| <= MAX_SEQUENCE
    ensures
      var got := Lookup(Fold(p, f, m, h[lo..j], lo), k);
      && (got == Lookup(m, k) || got == KeyAt(h, j, k))
      && (j <= FloorOf(p, f, k) ==> got == Lookup(m, k))
  {
    if j > lo {
      FoldWithinCover(p, f, m, h, lo, j - 1, k);
      assert h[lo..j][..j - 1 - lo] == h[lo..j - 1];
    }
  }

  /** From the cover of the image onwards every record of the key is re-applied. */
  lemma {:induction false} FoldBeyondCover(p: Platform, f: Filter, m: Image, h: History, lo: nat, s: nat, hi: nat, k: Key, now: int)
    requires ValidFilter(f) && Wanted(p, f, k)
    requires lo <= s <= hi <= |h| <= MAX_SEQUENCE
    requires FloorOf(p, f, k) <= s
    requires Agrees(Lookup(m, k), KeyAt(h, s, k), now)
    ensures Agrees(Lookup(Fold(p, f, m, h[lo..hi], lo), k), KeyAt(h, hi, k), now)
  {
    if hi == s {
      FoldWithinCover(p, f, m, h, lo, s, k);
    } else {
      FoldBeyondCover(p, f, m, h, lo, s, hi - 1, k, now);
      assert h[lo..hi][..hi - 1 - lo] == h[lo..hi - 1];
    }
  }

  /** Records about other keys leave a key alone, whatever the filter. */
  lemma {:induction false} FoldOthers(p: Platform, f: Filter, m: Image, ops: seq<Op>, base: nat, k: Key)
    requires ValidFilter(f) && base + |ops| <= MAX_SEQUENCE && forall i :: 0 <= i < |ops| ==> ops[i].key != k
    ensures Lookup(Fold(p, f, m, ops, base), k) == Lookup(m, k)
    decreases |ops|
  {
    if ops != [] { FoldOthers(p, f, m, ops[..|ops| - 1], base, k); }
  }

  /** Records of other shards leave a key alone when only one shard is rebuilt. */
  lemma {:induction false} FoldUnwanted(p: Platform, f: Filter, m: Image, ops: seq<Op>, base: nat, k: Key)
    requires ValidFilter(f) && !Wanted(p, f, k) && base + |ops| <= MAX_SEQUENCE
    ensures Lookup(Fold(p, f, m, ops, base), k) == Lookup(m, k)
    decreases |ops|
  {
    if ops != [] { FoldUnwanted(p, f, m, ops[..|ops| - 1], base, k); }
  }
}
