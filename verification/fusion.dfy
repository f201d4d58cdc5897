/**
 How `graph_multiprocessing` folds the workers' results back into the
 caller's dictionaries: every returned list of copies is zipped with
 `dynamic_args` and each dictionary is `update`d with its copy. The order in
 which the returned lists are visited is the order in which the manager
 dictionary yields them, given here as the order of the `results` sequence.
 */
module Fusion {

  /** `a.update(b)`: every key of either, the value of `b` where both have
      one. */
  function Update<K, V>(a: map<K, V>, b: map<K, V>): (r: map<K, V>)
    ensures r.Keys == a.Keys + b.Keys
    ensures forall k :: k in b ==> r[k] == b[k]
    ensures forall k :: k in a && k !in b ==> r[k] == a[k]
  {
    a + b
  }

  /** Updating twice with the same dictionary changes nothing more. */
  lemma UpdateIdempotent<K, V>(a: map<K, V>, b: map<K, V>)
    ensures Update(Update(a, b), b) == Update(a, b)
  {
  }

  /** Two updates in a row are one update with their combination, the later
      winning. */
  lemma UpdateTwice<K, V>(a: map<K, V>, b: map<K, V>, c: map<K, V>)
    ensures Update(Update(a, b), c) == Update(a, Update(b, c))
  {
  }

  /** `for obj, other in zip(objs, copies): obj.update(other)`: `zip` stops
      at the shorter list, so dictionaries without a partner are left as
      they are. */
  function UpdateAll<K, V>(objs: seq<map<K, V>>, copies: seq<map<K, V>>): (r: seq<map<K, V>>)
    ensures |r| == |objs|
    ensures forall i :: 0 <= i < |objs| ==>
              r[i].Keys == objs[i].Keys + (if i < |copies| then copies[i].Keys else {})
    ensures forall i, k :: 0 <= i < |objs| && k in r[i] ==>
              r[i][k] == if i < |copies| && k in copies[i] then copies[i][k] else objs[i][k]
  {
    seq(|objs|, i requires 0 <= i < |objs| =>
      if i < |copies| then Update(objs[i], copies[i]) else objs[i])
  }

  /** When every copy carries every entry of the dictionary `base` it is
      paired with, updating `own` with the copies leaves each of those
      entries with the copy's value, whatever `own` held there. */
  lemma CopiesOverwrite<K, V>(base: seq<map<K, V>>, own: seq<map<K, V>>, copies: seq<map<K, V>>)
    requires |own| == |base| == |copies|
    requires forall i :: 0 <= i < |base| ==> base[i].Keys <= copies[i].Keys
    ensures |UpdateAll(own, copies)| == |base|
    ensures forall i, k :: 0 <= i < |base| && k in base[i] ==>
              k in UpdateAll(own, copies)[i] && UpdateAll(own, copies)[i][k] == copies[i][k]
  {
  }

  /** Fusion: the returned lists are applied one after the other, in
      iteration order. */
  function Fuse<K, V>(objs: seq<map<K, V>>, results: seq<seq<map<K, V>>>): (r: seq<map<K, V>>)
    ensures |r| == |objs|
  {
    if |results| == 0 then objs
    else UpdateAll(Fuse(objs, results[..|results| - 1]), results[|results| - 1])
  }

  /** Returned list `j` carries key `k` for dictionary `i`. */
  predicate Holds<K, V>(results: seq<seq<map<K, V>>>, j: int, i: int, k: K) {
    0 <= j < |results| && 0 <= i < |results[j]| && k in results[j][i]
  }

  /** What fusion does to key `k` of dictionary `i`. */
  lemma {:induction false} FuseKey<K, V>(objs: seq<map<K, V>>, results: seq<seq<map<K, V>>>, i: int, k: K)
    requires 0 <= i < |objs|
    ensures k in Fuse(objs, results)[i] <==> k in objs[i] || exists j :: Holds(results, j, i, k)
    ensures forall j :: Holds(results, j, i, k) && LastHolder(results, j, i, k) ==>
              Fuse(objs, results)[i][k] == results[j][i][k]
    ensures k in objs[i] && (forall j :: !Holds(results, j, i, k)) ==>
              Fuse(objs, results)[i][k] == objs[i][k]
    decreases |results|
  {
    if |results| > 0 {
      var n := |results| - 1;
      var init := results[..n];
      var prev, last := Fuse(objs, init), results[n];
      FuseKey(objs, init, i, k);
      assert Fuse(objs, results) == UpdateAll(prev, last);
      assert forall j :: Holds(init, j, i, k) <==> Holds(results, j, i, k) && j < n;
      assert Holds(results, n, i, k) <==> i < |last| && k in last[i];
      if !Holds(results, n, i, k) {
        assert forall j :: LastHolder(results, j, i, k) ==> LastHolder(init, j, i, k);
      }
    }
  }

  /** No returned list after `j` carries key `k` for dictionary `i`. */
  predicate LastHolder<K, V>(results: seq<seq<map<K, V>>>, j: int, i: int, k: K) {
    forall j' :: j < j' < |results| ==> !Holds(results, j', i, k)
  }

  /** What fusion promises, stated without the fold: dictionary `i` ends up
      with its own keys and every key some returned copy of it carries;
      a key carried by a copy gets the value of the last copy carrying it,
      and any other key keeps its value. */
  lemma FuseSpec<K, V>(objs: seq<map<K, V>>, results: seq<seq<map<K, V>>>)
    ensures forall i, k :: 0 <= i < |objs| ==>
              (k in Fuse(objs, results)[i] <==>
                 k in objs[i] || exists j :: Holds(results, j, i, k))
    ensures forall i, k, j :: (0 <= i < |objs| && Holds(results, j, i, k) &&
                               LastHolder(results, j, i, k)) ==>
              Fuse(objs, results)[i][k] == results[j][i][k]
    ensures forall i, k :: (0 <= i < |objs| && k in objs[i] &&
                            (forall j :: !Holds(results, j, i, k))) ==>
              Fuse(objs, results)[i][k] == objs[i][k]
  {
    forall i, k | 0 <= i < |objs|
      ensures k in Fuse(objs, results)[i] <==> k in objs[i] || exists j :: Holds(results, j, i, k)
      ensures forall j :: Holds(results, j, i, k) && LastHolder(results, j, i, k) ==>
                Fuse(objs, results)[i][k] == results[j][i][k]
      ensures k in objs[i] && (forall j :: !Holds(results, j, i, k)) ==>
                Fuse(objs, results)[i][k] == objs[i][k]
    {
      FuseKey(objs, results, i, k);
    }
  }

  /** The fusion loop as written: over the returned lists, then over the
      zipped dictionaries. */
  method FuseReturns<K, V>(objs: seq<map<K, V>>, results: seq<seq<map<K, V>>>)
    returns (r: seq<map<K, V>>)
    ensures r == Fuse(objs, results)
  {
    r := objs;
    var t := 0;
    while t < |results|
      invariant 0 <= t <= |results|
      invariant r == Fuse(objs, results[..t])
    {
      var copies := results[t];
      var next := r;
      var i := 0;
      while i < |r| && i < |copies|
        invariant 0 <= i <= |r| && i <= |copies|
        invariant |next| == |r|
        invariant forall q :: 0 <= q < i ==> next[q] == Update(r[q], copies[q])
        invariant forall q :: i <= q < |r| ==> next[q] == r[q]
      {
        next := next[i := Update(r[i], copies[i])];
        i := i + 1;
      }
      assert results[..t + 1][..t] == results[..t];
      assert next == UpdateAll(r, copies);
      r := next;
      t := t + 1;
    }
    assert results[..t] == results;
  }
}
