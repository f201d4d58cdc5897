/**
 Lists of component sizes: their sum and the descending sort both
 programs apply before reporting (`sort(reverse=True)`).
 */
module Sizes {

  function Sum(s: seq<nat>): nat {
    if |s| == 0 then 0 else s[0] + Sum(s[1..])
  }

  lemma {:induction false} SumAppend(a: seq<nat>, b: seq<nat>)
    ensures Sum(a + b) == Sum(a) + Sum(b)
  {
    if |a| == 0 {
      assert a + b == b;
    } else {
      assert (a + b)[1..] == a[1..] + b;
      SumAppend(a[1..], b);
    }
  }

  predicate NonIncreasing(s: seq<nat>) {
    forall i, j :: 0 <= i < j < |s| ==> s[i] >= s[j]
  }

  function InsertDesc(x: nat, s: seq<nat>): (r: seq<nat>)
    requires NonIncreasing(s)
    ensures NonIncreasing(r)
    ensures multiset(r) == multiset(s) + multiset{x}
    ensures Sum(r) == Sum(s) + x
  {
    if |s| == 0 then [x]
    else if x >= s[0] then [x] + s
    else
      var rest := InsertDesc(x, s[1..]);
      InsertDescCons(x, s, rest);
      [s[0]] + rest
  }

  /** The recursive case of `InsertDesc`: the head stays in front. */
  lemma InsertDescCons(x: nat, s: seq<nat>, rest: seq<nat>)
    requires |s| > 0 && NonIncreasing(s) && x < s[0]
    requires NonIncreasing(rest) && multiset(rest) == multiset(s[1..]) + multiset{x}
    requires Sum(rest) == Sum(s[1..]) + x
    ensures NonIncreasing([s[0]] + rest)
    ensures multiset([s[0]] + rest) == multiset(s) + multiset{x}
    ensures Sum([s[0]] + rest) == Sum(s) + x
  {
    assert s == [s[0]] + s[1..];
    forall k | 0 <= k < |rest|
      ensures rest[k] <= s[0]
    {
      assert rest[k] in multiset(s[1..]) + multiset{x};
      if rest[k] != x {
        var m :| 0 <= m < |s[1..]| && s[1..][m] == rest[k];
        assert s[m + 1] == rest[k];
      }
    }
    var c := [s[0]] + rest;
    assert c[1..] == rest;
    forall i, j | 0 <= i < j < |c|
      ensures c[i] >= c[j]
    {
      if i > 0 {
        assert c[i] == rest[i - 1] && c[j] == rest[j - 1];
      } else {
        assert c[j] == rest[j - 1];
      }
    }
  }

  /** Insertion sort into non-increasing order: a permutation of the input
      with the same total. */
  function SortDesc(s: seq<nat>): (r: seq<nat>)
    ensures NonIncreasing(r)
    ensures multiset(r) == multiset(s)
    ensures Sum(r) == Sum(s)
    ensures |r| == |s|
  {
    if |s| == 0 then []
    else
      assert s == [s[0]] + s[1..];
      InsertDesc(s[0], SortDesc(s[1..]))
  }

  /** A non-increasing list is determined by its multiset: two size lists
      with the same sizes print the same. */
  lemma {:induction false} NonIncreasingUnique(a: seq<nat>, b: seq<nat>)
    requires NonIncreasing(a) && NonIncreasing(b)
    requires multiset(a) == multiset(b)
    ensures a == b
  {
    if |a| == 0 {
      assert |multiset(b)| == 0;
    } else {
      assert |b| == |multiset(b)| == |multiset(a)| == |a|;
      DescHeadsEqual(a, b);
      DropHead(a);
      DropHead(b);
      NonIncreasingUnique(a[1..], b[1..]);
    }
  }

  lemma DescHeadsEqual(a: seq<nat>, b: seq<nat>)
    requires NonIncreasing(a) && NonIncreasing(b) && |a| > 0 && |b| > 0
    requires multiset(a) == multiset(b)
    ensures a[0] == b[0]
  {
    assert a[0] in multiset(b);
    assert b[0] in multiset(a);
    var i :| 0 <= i < |b| && b[i] == a[0];
    var j :| 0 <= j < |a| && a[j] == b[0];
  }

  lemma DropHead<T>(a: seq<T>)
    requires |a| > 0
    ensures multiset(a[1..]) == multiset(a) - multiset{a[0]}
  {
    assert a == [a[0]] + a[1..];
  }
}
