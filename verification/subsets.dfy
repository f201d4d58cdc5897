/**
 The job list of the exhaustive validation: for every size `k` from 1 to
 the number of grid cells, every `k`-element combination of the cell
 numbers, in the order `itertools.combinations` produces them. A
 combination is a strictly increasing sequence of cell numbers.
 */
module Subsets {
  import opened Seqs

  /** `s` is strictly increasing with every element in `lo..hi-1`. */
  predicate IncreasingIn(s: seq<nat>, lo: nat, hi: nat)
    decreases |s|
  {
    |s| == 0 || (lo <= s[0] < hi && IncreasingIn(s[1..], s[0] + 1, hi))
  }

  /** The recursive definition states the usual pointwise one. */
  lemma {:induction false} IncreasingInPointwise(s: seq<nat>, lo: nat, hi: nat)
    ensures IncreasingIn(s, lo, hi) <==>
              && (forall t :: 0 <= t < |s| ==> lo <= s[t] < hi)
              && (forall t, u :: 0 <= t < u < |s| ==> s[t] < s[u])
    decreases |s|
  {
    if |s| > 0 {
      IncreasingInPointwise(s[1..], s[0] + 1, hi);
      if IncreasingIn(s, lo, hi) {
        forall t, u | 0 <= t < u < |s|
          ensures s[t] < s[u]
        {
          assert s[u] == s[1..][u - 1];
          if t > 0 {
            assert s[t] == s[1..][t - 1];
          }
        }
        forall t | 0 <= t < |s|
          ensures lo <= s[t] < hi
        {
          if t > 0 {
            assert s[t] == s[1..][t - 1];
          }
        }
      } else if lo <= s[0] < hi {
        assert !IncreasingIn(s[1..], s[0] + 1, hi);
        if forall t, u :: 0 <= t < u < |s| ==> s[t] < s[u] {
          assert forall t :: 0 <= t < |s[1..]| ==> s[1..][t] == s[t + 1] && s[0] < s[t + 1];
        }
      }
    }
  }

  function Prepend(x: nat, cs: seq<seq<nat>>): (r: seq<seq<nat>>)
    ensures |r| == |cs|
  {
    if |cs| == 0 then [] else [[x] + cs[0]] + Prepend(x, cs[1..])
  }

  /** `combinations(range(lo, hi), k)`: the combinations that contain `lo`
      come first, followed by those that do not. */
  function Combinations(lo: nat, hi: nat, k: nat): seq<seq<nat>>
    decreases hi - lo, k
  {
    if k == 0 then [[]]
    else if lo >= hi then []
    else Prepend(lo, Combinations(lo + 1, hi, k - 1)) + Combinations(lo + 1, hi, k)
  }

  /** The loop of `main`: sizes `k` to `n`, each size's combinations of
      `range(n)` in turn. */
  function EnumerateFrom(n: nat, k: nat): seq<seq<nat>>
    decreases n + 1 - k
  {
    if k > n then [] else Combinations(0, n, k) + EnumerateFrom(n, k + 1)
  }

  /** Every job of the validation run over `n` cells. */
  function Enumeration(n: nat): seq<seq<nat>> {
    EnumerateFrom(n, 1)
  }

  /** How many times `s` occurs in the job list `cs`. */
  function Occurrences(cs: seq<seq<nat>>, s: seq<nat>): nat
    decreases |cs|
  {
    if |cs| == 0 then 0 else (if cs[0] == s then 1 else 0) + Occurrences(cs[1..], s)
  }

  lemma {:induction false} OccurrencesAppend(a: seq<seq<nat>>, b: seq<seq<nat>>, s: seq<nat>)
    ensures Occurrences(a + b, s) == Occurrences(a, s) + Occurrences(b, s)
    decreases |a|
  {
    if |a| == 0 {
      assert a + b == b;
    } else {
      assert (a + b)[1..] == a[1..] + b;
      OccurrencesAppend(a[1..], b, s);
    }
  }

  /** `Occurrences` is the multiplicity in the multiset of the list. */
  lemma {:induction false} OccurrencesMultiset(cs: seq<seq<nat>>, s: seq<nat>)
    ensures multiset(cs)[s] == Occurrences(cs, s)
    decreases |cs|
  {
    if |cs| > 0 {
      assert cs == [cs[0]] + cs[1..];
      OccurrencesMultiset(cs[1..], s);
    }
  }

  /** Prepending `x` puts every sequence that starts with `x` as often as
      its tail occurs, and nothing else. */
  lemma {:induction false} PrependCount(x: nat, cs: seq<seq<nat>>, s: seq<nat>)
    ensures Occurrences(Prepend(x, cs), s) == if |s| > 0 && s[0] == x then Occurrences(cs, s[1..]) else 0
    decreases |cs|
  {
    if |cs| > 0 {
      var p := Prepend(x, cs);
      assert p[0] == [x] + cs[0] && p[1..] == Prepend(x, cs[1..]);
      PrependCount(x, cs[1..], s);
      HeadMatch(x, cs[0], s);
    }
  }

  lemma HeadMatch(x: nat, c: seq<nat>, s: seq<nat>)
    ensures ([x] + c == s) <==> (|s| > 0 && s[0] == x && c == s[1..])
  {
    if |s| > 0 && s[0] == x && c == s[1..] {
      assert s == [x] + s[1..];
    }
    if [x] + c == s {
      assert s[1..] == c;
    }
  }

  /** Each combination occurs exactly once, and nothing else occurs. */
  lemma {:induction false} CombinationsCount(lo: nat, hi: nat, k: nat, s: seq<nat>)
    ensures Occurrences(Combinations(lo, hi, k), s) == if |s| == k && IncreasingIn(s, lo, hi) then 1 else 0
    decreases hi - lo, k
  {
    if k == 0 {
      assert Combinations(lo, hi, k) == [[]];
      assert s == [] <==> |s| == 0;
    } else if lo < hi {
      CombinationsCount(lo + 1, hi, k, s);
      if |s| > 0 && s[0] == lo {
        CombinationsCount(lo + 1, hi, k - 1, s[1..]);
        CombinationsStepAtLo(lo, hi, k, s);
      } else {
        CombinationsStepAboveLo(lo, hi, k, s);
      }
    }
  }

  /** The count of a sequence starting with `lo`, from the counts in the
      two parts `combinations(range(lo, hi), k)` is built from. */
  lemma CombinationsStepAtLo(lo: nat, hi: nat, k: nat, s: seq<nat>)
    requires 0 < k && lo < hi && |s| > 0 && s[0] == lo
    requires Occurrences(Combinations(lo + 1, hi, k), s) ==
               if |s| == k && IncreasingIn(s, lo + 1, hi) then 1 else 0
    requires Occurrences(Combinations(lo + 1, hi, k - 1), s[1..]) ==
               if |s[1..]| == k - 1 && IncreasingIn(s[1..], lo + 1, hi) then 1 else 0
    ensures Occurrences(Combinations(lo, hi, k), s) == if |s| == k && IncreasingIn(s, lo, hi) then 1 else 0
  {
    var with := Combinations(lo + 1, hi, k - 1);
    var without := Combinations(lo + 1, hi, k);
    OccurrencesAppend(Prepend(lo, with), without, s);
    PrependCount(lo, with, s);
    CountStartingAtLo(lo, hi, k, s, Occurrences(Prepend(lo, with), s), Occurrences(without, s));
  }

  /** The same for any other sequence. */
  lemma CombinationsStepAboveLo(lo: nat, hi: nat, k: nat, s: seq<nat>)
    requires 0 < k && lo < hi && !(|s| > 0 && s[0] == lo)
    requires Occurrences(Combinations(lo + 1, hi, k), s) ==
               if |s| == k && IncreasingIn(s, lo + 1, hi) then 1 else 0
    ensures Occurrences(Combinations(lo, hi, k), s) == if |s| == k && IncreasingIn(s, lo, hi) then 1 else 0
  {
    var with := Combinations(lo + 1, hi, k - 1);
    var without := Combinations(lo + 1, hi, k);
    OccurrencesAppend(Prepend(lo, with), without, s);
    PrependCount(lo, with, s);
    CountAboveLo(lo, hi, k, s, Occurrences(Prepend(lo, with), s), Occurrences(without, s));
  }

  /** A combination starting with `lo` is counted among those that contain
      `lo` only. */
  lemma CountStartingAtLo(lo: nat, hi: nat, k: nat, s: seq<nat>, a: nat, b: nat)
    requires 0 < k && lo < hi && |s| > 0 && s[0] == lo
    requires a == if |s[1..]| == k - 1 && IncreasingIn(s[1..], lo + 1, hi) then 1 else 0
    requires b == if |s| == k && IncreasingIn(s, lo + 1, hi) then 1 else 0
    ensures a + b == if |s| == k && IncreasingIn(s, lo, hi) then 1 else 0
  {
    assert IncreasingIn(s, lo, hi) == IncreasingIn(s[1..], lo + 1, hi);
    assert !IncreasingIn(s, lo + 1, hi);
  }

  /** Any other sequence is counted among those that omit `lo` only. */
  lemma CountAboveLo(lo: nat, hi: nat, k: nat, s: seq<nat>, a: nat, b: nat)
    requires !(|s| > 0 && s[0] == lo)
    requires a == 0
    requires b == if |s| == k && IncreasingIn(s, lo + 1, hi) then 1 else 0
    ensures a + b == if |s| == k && IncreasingIn(s, lo, hi) then 1 else 0
  {
    assert IncreasingIn(s, lo, hi) == IncreasingIn(s, lo + 1, hi);
  }

  lemma {:induction false} EnumerateFromCount(n: nat, k: nat, s: seq<nat>)
    ensures Occurrences(EnumerateFrom(n, k), s) == if k <= |s| <= n && IncreasingIn(s, 0, n) then 1 else 0
    decreases n + 1 - k
  {
    if k <= n {
      OccurrencesAppend(Combinations(0, n, k), EnumerateFrom(n, k + 1), s);
      CombinationsCount(0, n, k, s);
      EnumerateFromCount(n, k + 1, s);
    } else if k <= |s| && IncreasingIn(s, 0, n) {
      IncreasingLength(s, 0, n);
    }
  }

  /** A strictly increasing sequence over `lo..hi-1` has at most `hi - lo`
      elements. */
  lemma {:induction false} IncreasingLength(s: seq<nat>, lo: nat, hi: nat)
    requires IncreasingIn(s, lo, hi)
    ensures |s| > 0 ==> lo + |s| <= hi
    decreases |s|
  {
    if |s| > 0 {
      assert IncreasingIn(s[1..], s[0] + 1, hi);
      IncreasingLength(s[1..], s[0] + 1, hi);
    }
  }

  /** The validation visits every non-empty combination of cells exactly
      once, and nothing else. */
  lemma EnumerationExactlyOnce(n: nat, s: seq<nat>)
    ensures multiset(Enumeration(n))[s] == if |s| > 0 && IncreasingIn(s, 0, n) then 1 else 0
  {
    EnumerateFromCount(n, 1, s);
    OccurrencesMultiset(Enumeration(n), s);
    if |s| > 0 && IncreasingIn(s, 0, n) {
      IncreasingLength(s, 0, n);
    }
  }

  // How many jobs there are.

  function Choose(n: nat, k: nat): nat {
    if k == 0 then 1 else if n == 0 then 0 else Choose(n - 1, k - 1) + Choose(n - 1, k)
  }

  /** `Choose(n, k) + Choose(n, k + 1) + ... + Choose(n, n)`. */
  function ChooseFrom(n: nat, k: nat): nat
    decreases n + 1 - k
  {
    if k > n then 0 else Choose(n, k) + ChooseFrom(n, k + 1)
  }

  function Pow2(n: nat): nat {
    if n == 0 then 1 else 2 * Pow2(n - 1)
  }

  /** `combinations(range(lo, hi), k)` has `hi - lo` choose `k` entries. */
  lemma {:induction false} CombinationsLength(lo: nat, hi: nat, k: nat)
    ensures |Combinations(lo, hi, k)| == Choose(if lo < hi then hi - lo else 0, k)
    decreases hi - lo, k
  {
    if k > 0 && lo < hi {
      CombinationsLength(lo + 1, hi, k - 1);
      CombinationsLength(lo + 1, hi, k);
    }
  }

  lemma {:induction false} ChooseAbove(n: nat, k: nat)
    requires k > n
    ensures Choose(n, k) == 0
  {
    if n > 0 {
      ChooseAbove(n - 1, k - 1);
      ChooseAbove(n - 1, k);
    }
  }

  /** Pascal's rule, summed over the sizes from `k` up. */
  lemma {:induction false} ChooseFromPascal(n: nat, k: nat)
    requires 0 < k
    ensures ChooseFrom(n + 1, k) == ChooseFrom(n, k - 1) + ChooseFrom(n, k)
    decreases n + 2 - k
  {
    if k <= n + 1 {
      ChooseFromPascal(n, k + 1);
      if k == n + 1 {
        ChooseAbove(n, k);
      }
    }
  }

  lemma {:induction false} ChooseFromAll(n: nat)
    ensures ChooseFrom(n, 0) == Pow2(n)
  {
    if n > 0 {
      ChooseFromAll(n - 1);
      ChooseFromPascal(n - 1, 1);
    }
  }

  lemma {:induction false} EnumerateFromLength(n: nat, k: nat)
    ensures |EnumerateFrom(n, k)| == ChooseFrom(n, k)
    decreases n + 1 - k
  {
    if k <= n {
      CombinationsLength(0, n, k);
      EnumerateFromLength(n, k + 1);
    }
  }

  /** Over `n` cells the validation submits `2^n - 1` jobs, one per
      non-empty subset. */
  lemma EnumerationLength(n: nat)
    ensures |Enumeration(n)| == Pow2(n) - 1
  {
    EnumerateFromLength(n, 1);
    ChooseFromAll(n);
  }

  // From combinations to subsets of cells.

  /** A combination is determined by its set of cells. */
  lemma {:induction false} SameCellsSameCombination(a: seq<nat>, b: seq<nat>, lo: nat, hi: nat)
    requires IncreasingIn(a, lo, hi) && IncreasingIn(b, lo, hi)
    requires Elements(a) == Elements(b)
    ensures a == b
    decreases |a|
  {
    assert |b| > 0 ==> b[0] in Elements(b);
    if |a| == 0 {
    } else {
      assert a[0] in Elements(b);
      assert b[0] in Elements(a);
      HeadIsLeast(a, lo, hi);
      HeadIsLeast(b, lo, hi);
      assert a[0] == b[0];
      ElementsTail(a, lo, hi);
      ElementsTail(b, lo, hi);
      SameCellsSameCombination(a[1..], b[1..], a[0] + 1, hi);
      assert a == [a[0]] + a[1..] && b == [b[0]] + b[1..];
    }
  }

  /** The first cell of a combination is its smallest. */
  lemma HeadIsLeast(s: seq<nat>, lo: nat, hi: nat)
    requires |s| > 0 && IncreasingIn(s, lo, hi)
    ensures forall x :: x in Elements(s) ==> s[0] <= x
  {
    IncreasingInPointwise(s, lo, hi);
  }

  lemma ElementsTail(s: seq<nat>, lo: nat, hi: nat)
    requires |s| > 0 && IncreasingIn(s, lo, hi)
    ensures Elements(s[1..]) == Elements(s) - {s[0]}
  {
    IncreasingInPointwise(s, lo, hi);
    forall x | x in Elements(s[1..])
      ensures x != s[0]
    {
      var t :| 0 <= t < |s[1..]| && s[1..][t] == x;
      assert s[0] < s[t + 1];
    }
    assert s == [s[0]] + s[1..];
  }

  /** The combination listing a finite set of cells in increasing order. */
  ghost function Sorted(cells: set<nat>, lo: nat, hi: nat): (s: seq<nat>)
    requires forall x :: x in cells ==> lo <= x < hi
    ensures Elements(s) == cells && IncreasingIn(s, lo, hi)
    decreases |cells|
  {
    if cells == {} then []
    else
      var m := Least(cells);
      var rest := Sorted(cells - {m}, m + 1, hi);
      assert ([m] + rest)[1..] == rest;
      assert Elements([m] + rest) == {m} + Elements(rest);
      [m] + rest
  }

  ghost function Least(cells: set<nat>): (m: nat)
    requires cells != {}
    ensures m in cells && forall y :: y in cells ==> m <= y
    decreases |cells|
  {
    var x :| x in cells;
    var others := cells - {x};
    assert forall y :: y in cells && y != x ==> y in others;
    if others == {} then
      x
    else
      var m := Least(others);
      var r := if x < m then x else m;
      assert forall y :: y in cells ==> r <= y by {
        forall y | y in cells
          ensures r <= y
        {
          if y != x {
            assert y in others;
          }
        }
      }
      r
  }

  /** Every non-empty set of cells among `0..n-1` is the cell set of exactly
      one job. */
  lemma EachSubsetOnce(n: nat, cells: set<nat>)
    requires cells != {} && forall x :: x in cells ==> x < n
    ensures var s := Sorted(cells, 0, n);
      && Elements(s) == cells
      && multiset(Enumeration(n))[s] == 1
      && forall t :: 0 <= t < |Enumeration(n)| && Elements(Enumeration(n)[t]) == cells ==>
           Enumeration(n)[t] == s
  {
    var s := Sorted(cells, 0, n);
    var x :| x in cells;
    assert x in Elements(s);
    EnumerationExactlyOnce(n, s);
    forall t | 0 <= t < |Enumeration(n)| && Elements(Enumeration(n)[t]) == cells
      ensures Enumeration(n)[t] == s
    {
      var e := Enumeration(n)[t];
      assert e in multiset(Enumeration(n));
      EnumerationExactlyOnce(n, e);
      SameCellsSameCombination(e, s, 0, n);
    }
  }
}
