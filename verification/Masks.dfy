/** The bit operations behind shard selection, as arithmetic. */
module Masks {
  import opened Base

  /** Bitwise and. */
  function And(a: nat, b: nat): nat
    decreases a
  {
    if a == 0 then 0 else 2 * And(a / 2, b / 2) + (if a % 2 == 1 && b % 2 == 1 then 1 else 0)
  }

  /** Masking with one less than a power of two is the remainder. */
  lemma {:induction false} MaskIsRemainder(a: nat, n: nat)
    requires PowerOfTwo(n)
    ensures n > 0 && And(a, n - 1) == a % n
    decreases n
  {
    if n == 1 {
      AndZero(a);
    } else {
      var m := n / 2;
      MaskIsRemainder(a / 2, m);
      assert (n - 1) / 2 == m - 1 && (n - 1) % 2 == 1;
      AndOdd(a, n - 1);
      Halve(a, m);
    }
  }

  lemma {:induction false} AndZero(a: nat)
    ensures And(a, 0) == 0
    decreases a
  {
    if a > 0 { AndZero(a / 2); }
  }

  lemma AndOdd(a: nat, b: nat)
    requires b % 2 == 1
    ensures And(a, b) == 2 * And(a / 2, b / 2) + a % 2
  {
  }

  lemma Halve(a: nat, m: nat)
    requires m > 0
    ensures a % (2 * m) == 2 * ((a / 2) % m) + a % 2
  {
    var q := (a / 2) / m;
    var r := (a / 2) % m;
    assert a / 2 == m * q + r;
    assert a == (2 * m) * q + (2 * r + a % 2);
    Remainder(a, 2 * m, q, 2 * r + a % 2);
  }

  lemma Remainder(a: nat, n: nat, q: nat, r: nat)
    requires r < n && a == n * q + r
    ensures a % n == r
  {
    var q', r' := a / n, a % n;
    assert a == n * q' + r';
    OneQuotient(n, q, r, q', r');
  }

  lemma OneQuotient(n: nat, q: nat, r: nat, q': nat, r': nat)
    requires r < n && r' < n && n * q + r == n * q' + r'
    ensures r == r'
  {
    assert n * (q - q') == r' - r;
    if q > q' { Multiple(n, q - q'); } else if q < q' { Multiple(n, q' - q); }
  }

  lemma Multiple(n: nat, d: nat)
    requires d > 0
    ensures n * d >= n
  {
  }

  /** Shard selection is the mask of the hash, for every shard count the store accepts. */
  lemma ShardIsMask(p: Platform, shards: nat, key: Key)
    requires PowerOfTwo(shards)
    ensures shards > 0 && ShardOf(p, shards, key) == And(p.hash(key), shards - 1)
  {
    MaskIsRemainder(p.hash(key), shards);
  }

  /** The test recovery applies to a snapshot's shard count. */
  lemma {:induction false} PowerOfTwoTest(n: nat)
    requires n > 0
    ensures And(n, n - 1) == 0 <==> PowerOfTwo(n)
    decreases n
  {
    if n % 2 == 0 {
      PowerOfTwoTest(n / 2);
      assert (n - 1) / 2 == n / 2 - 1;
    } else if n > 1 {
      assert n / 2 == (n - 1) / 2;
      AndSelf(n / 2);
    }
  }

  lemma {:induction false} AndSelf(a: nat)
    ensures And(a, a) == a
    decreases a
  {
    if a > 0 { AndSelf(a / 2); }
  }
}
