/** Facts about slices of sequences that the solver does not volunteer. */
module Slices {

  lemma PrefixOfAppend<T>(a: seq<T>, b: seq<T>, cut: nat)
    requires |a| <= cut <= |a| + |b|
    ensures (a + b)[..cut] == a + b[..cut - |a|]
  {
  }

  lemma Split<T>(s: seq<T>, a: nat, b: nat, c: nat)
    requires a <= b <= c <= |s|
    ensures s[a..c] == s[a..b] + s[b..c]
  {
  }

  lemma SliceOfAppend<T>(a: seq<T>, b: seq<T>, i: nat, n: nat)
    requires i <= |a| && n <= |b|
    ensures (a + b)[i..|a| + n] == a[i..|a|] + b[..n]
  {
  }

  lemma SliceOfPrefix<T>(s: seq<T>, n: nat, a: nat, b: nat)
    requires a <= b <= n <= |s|
    ensures s[..n][a..b] == s[a..b]
  {
  }

  lemma CutInSecond<T>(a: seq<T>, b: seq<T>, cut: nat, done: seq<T>, tail: seq<T>)
    requires |a| <= cut <= |a| + |b| && b[..cut - |a|] == done + tail
    ensures (a + b)[..cut] == (a + done) + tail
  {
    PrefixOfAppend(a, b, cut);
    assert a + (done + tail) == (a + done) + tail;
  }

  lemma HeadAndRest<T>(s: seq<T>, n: nat)
    requires n < |s|
    ensures s == [s[0]] + s[1..]
    ensures s[..n + 1] == [s[0]] + s[1..][..n]
    ensures n + 1 < |s| ==> s[n + 1] == s[1..][n]
  {
  }
}
