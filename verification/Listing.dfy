/** Directory listings ordered by sequence. */
module Listing {

  lemma {:induction false} SmallestExists(s: set<int>)
    requires s != {}
    ensures exists m :: m in s && forall x :: x in s ==> m <= x
  {
    if !(exists x :: x in s) { assert false; }
    var a :| a in s;
    if s != {a} {
      SmallestExists(s - {a});
      var b :| b in s - {a} && forall x :: x in s - {a} ==> b <= x;
      var m := if a < b then a else b;
      forall x | x in s
        ensures m <= x
      {
        if x != a { assert x in s - {a}; }
      }
      assert m in s;
    }
  }

  function Smallest(s: set<int>): (m: int)
    requires s != {}
    ensures m in s && forall x :: x in s ==> m <= x
  {
    SmallestExists(s);
    var m :| m in s && forall x :: x in s ==> m <= x;
    m
  }

  /** The largest element: the newest name of a directory. */
  function Largest(s: set<int>): (m: int)
    requires s != {}
    ensures m in s && forall x :: x in s ==> x <= m
  {
    var names := Ascending(s);
    LastIsLargest(s);
    names[|names| - 1]
  }

  lemma LastIsLargest(s: set<int>)
    requires s != {}
    ensures |Ascending(s)| > 0
    ensures Ascending(s)[|Ascending(s)| - 1] in s && forall x :: x in s ==> x <= Ascending(s)[|Ascending(s)| - 1]
  {
    var names := Ascending(s);
    if !(exists x :: x in s) { assert false; }
    var a :| a in s;
    assert a in names;
    assert names[|names| - 1] in names;
    forall x | x in s
      ensures x <= names[|names| - 1]
    {
      assert x in names;
    }
  }

  predicate StrictlyAscending(r: seq<int>) {
    forall i, j :: 0 <= i < j < |r| ==> r[i] < r[j]
  }

  ghost predicate Lists(r: seq<int>, s: set<int>) {
    StrictlyAscending(r) && forall x :: x in r <==> x in s
  }

  /** The names of a directory in sequence order. */
  function Ascending(s: set<int>): (r: seq<int>)
    ensures Lists(r, s)
  {
    if s == {} then [] else
      var m := Smallest(s);
      [m] + Ascending(s - {m})
  }

  /** There is only one such order. */
  lemma {:induction false} AscendingIsUnique(r: seq<int>, s: set<int>)
    requires Lists(r, s)
    ensures Ascending(s) == r
    decreases r
  {
    if r == [] {
      assert s == {};
    } else {
      assert r[0] in r;
      forall x | x in s
        ensures r[0] <= x
      {
        assert x in r;
      }
      assert Smallest(s) == r[0];
      ListsRest(r, s);
      AscendingIsUnique(r[1..], s - {r[0]});
      assert r == [r[0]] + r[1..];
    }
  }

  lemma ListsRest(r: seq<int>, s: set<int>)
    requires Lists(r, s) && |r| > 0
    ensures Lists(r[1..], s - {r[0]})
  {
    forall x
      ensures x in r[1..] <==> x in s - {r[0]}
    {
      assert x in r <==> x in s;
      assert r == [r[0]] + r[1..];
    }
  }

  /** The last listed name that is at most `bound`. */
  function LastAtMost(r: seq<int>, bound: int): (i: nat)
    requires |r| > 0 && r[0] <= bound
    ensures i < |r| && r[i] <= bound
    ensures forall j :: i < j < |r| ==> r[j] > bound
  {
    var n := |r| - 1;
    if r[n] <= bound then n else
      assert forall j :: 0 <= j < n ==> r[..n][j] == r[j];
      LastAtMost(r[..n], bound)
  }
}
