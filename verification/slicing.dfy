/**
 How `graph_multiprocessing` shares the bucket keys between processes:
 the worker count, the per-process share and remainder, and the slice of
 the key list each process receives. Python's slicing (negative indices
 counted from the end, bounds clamped) and indexing (an error outside the
 list) are written out, since the visit order relies on both.
 */
module Slicing {

  datatype Option<T> = None | Some(value: T)

  // Python sequence access.

  /** A slice bound as Python resolves it: negative counts from the end,
      then clamped into `0..len`. */
  function Bound(i: int, len: nat): (b: nat)
    ensures b <= len
    ensures 0 <= i <= len ==> b == i
    ensures -(len as int) <= i < 0 ==> b == i + len
    ensures i > len ==> b == len
    ensures i < -(len as int) ==> b == 0
  {
    var j := if i < 0 then i + len else i;
    if j < 0 then 0 else if j > len then len else j
  }

  /** `s[a:b]`. */
  function PySlice<T>(s: seq<T>, a: int, b: int): seq<T> {
    var lo, hi := Bound(a, |s|), Bound(b, |s|);
    if lo < hi then s[lo..hi] else []
  }

  /** `s[i]`, or `None` where Python raises `IndexError`. */
  function PyIndex<T>(s: seq<T>, i: int): (r: Option<T>)
    ensures r.Some? <==> -|s| <= i < |s|
    ensures 0 <= i < |s| ==> r == Some(s[i])
    ensures -|s| <= i < 0 ==> r == Some(s[|s| + i])
  {
    if 0 <= i < |s| then Some(s[i])
    else if -|s| <= i < 0 then Some(s[|s| + i])
    else None
  }

  /** Within the bounds a Python slice is the Dafny subsequence. */
  lemma PySliceExact<T>(s: seq<T>, a: nat, b: nat)
    requires a <= b <= |s|
    ensures PySlice(s, a, b) == s[a..b]
  {
  }

  /** A slice whose end is at or before its start is empty. */
  lemma PySliceEmpty<T>(s: seq<T>, a: int, b: int)
    requires Bound(b, |s|) <= Bound(a, |s|)
    ensures PySlice(s, a, b) == []
  {
  }

  // The sharing arithmetic.

  /** `a * b`, unfolded one row at a time. */
  function Mul(a: nat, b: nat): nat {
    if a == 0 then 0 else Mul(a - 1, b) + b
  }

  lemma {:induction false} MulIsProduct(a: nat, b: nat)
    ensures Mul(a, b) == a * b
  {
    if a > 0 {
      MulIsProduct(a - 1, b);
      assert a * b == (a - 1) * b + b;
    }
  }

  function Min(a: int, b: int): int {
    if a <= b then a else b
  }

  /** `max(min(len(keys) // 4, cpu_count()), 1)`. */
  function WorkerCount(n: nat, cpus: nat): (count: nat)
    ensures 1 <= count
    ensures count == 1 || (count <= n / 4 && count <= cpus)
    ensures count >= n / 4 || count >= cpus
  {
    var c := Min(n / 4, cpus);
    if c < 1 then 1 else c
  }

  /** The process count, the keys per process (`effectif`) and the number
      of processes that take one key more (`rest`). */
  datatype Sharing = Sharing(count: nat, effectif: nat, rest: nat)

  function Share(n: nat, cpus: nat): Sharing {
    var count := WorkerCount(n, cpus);
    Sharing(count, n / count, n % count)
  }

  /** `sh` splits `n` keys: `count` processes, `effectif` each, and the
      `rest` left over is fewer than the processes. */
  predicate Splits(sh: Sharing, n: nat) {
    && sh.count >= 1
    && sh.rest < sh.count
    && n == Mul(sh.count, sh.effectif) + sh.rest
  }

  lemma ShareSplits(n: nat, cpus: nat)
    ensures Splits(Share(n, cpus), n)
  {
    var count := WorkerCount(n, cpus);
    MulIsProduct(count, n / count);
    assert n == count * (n / count) + n % count;
  }

  /** With at least four keys every process gets at least four of them. */
  lemma ShareAtLeastFour(n: nat, cpus: nat)
    requires n >= 4
    ensures Share(n, cpus).effectif >= 4
  {
    var count := WorkerCount(n, cpus);
    if count > 1 {
      assert 4 * count <= n by {
        assert count <= n / 4;
      }
      ShareBound(n, count);
    }
  }

  lemma ShareBound(n: nat, count: nat)
    requires 1 <= count && 4 * count <= n
    ensures n / count >= 4
  {
    var e := n / count;
    assert n == count * e + n % count && n % count < count;
  }

  /** `effectif + int(process_id < rest)`: the first `rest` processes take
      one key more than the others. */
  function SliceLen(sh: Sharing, p: nat): nat {
    sh.effectif + (if p < sh.rest then 1 else 0)
  }

  /** Where the slice of process `p` starts: right after the slice of
      process `p - 1`. */
  function SliceStart(sh: Sharing, p: nat): nat {
    if p == 0 then 0 else SliceStart(sh, p - 1) + SliceLen(sh, p - 1)
  }

  /** Where the code starts the slice of process `p`: `0` for the main
      process, `process_id * effectif + min(rest, process_id)` for the
      others. */
  function CodeStart(sh: Sharing, p: nat): int {
    if p == 0 then 0 else Mul(p, sh.effectif) + Min(sh.rest, p)
  }

  /** Where the code ends it: `effectif + min(rest, 1)` for the main
      process, `current + effectif + int(process_id < rest)` for the
      others. */
  function CodeEnd(sh: Sharing, p: nat): int {
    if p == 0 then sh.effectif + Min(sh.rest, 1)
    else CodeStart(sh, p) + sh.effectif + (if p < sh.rest then 1 else 0)
  }

  /** The keys the code hands to process `p`. */
  function CodeSlice<K>(keys: seq<K>, sh: Sharing, p: nat): seq<K> {
    PySlice(keys, CodeStart(sh, p), CodeEnd(sh, p))
  }

  /** `SliceStart` in closed form. */
  lemma {:induction false} SliceStartFormula(sh: Sharing, p: nat)
    ensures SliceStart(sh, p) == Mul(p, sh.effectif) + Min(sh.rest, p)
  {
    if p > 0 {
      SliceStartFormula(sh, p - 1);
    }
  }

  /** The start the code computes is where the previous slice ends, and
      the main process's special form agrees with the general one. */
  lemma CodeBounds(sh: Sharing, p: nat)
    ensures CodeStart(sh, p) == SliceStart(sh, p)
    ensures CodeEnd(sh, p) == SliceStart(sh, p) + SliceLen(sh, p)
  {
    SliceStartFormula(sh, p);
  }

  lemma SliceStartNext(sh: Sharing, p: nat)
    ensures SliceStart(sh, p + 1) == SliceStart(sh, p) + SliceLen(sh, p)
  {
  }

  /** The slices of all `count` processes end exactly at the last key. */
  lemma SliceStartLast(sh: Sharing, n: nat)
    requires Splits(sh, n)
    ensures EndsAt(sh, n)
  {
    SliceStartFormula(sh, sh.count);
  }

  /** The slices of processes `0..count-1` end exactly at key `n`. */
  predicate EndsAt(sh: Sharing, n: nat) {
    SliceStart(sh, sh.count) == n
  }

  lemma {:induction false} SliceStartMonotone(sh: Sharing, p: nat, q: nat)
    requires p <= q
    ensures SliceStart(sh, p) <= SliceStart(sh, q)
    decreases q - p
  {
    if p < q {
      SliceStartMonotone(sh, p, q - 1);
    }
  }

  /** The `SliceLen` keys from `SliceStart`. */
  function Slice<K>(keys: seq<K>, sh: Sharing, p: nat): (s: seq<K>)
    requires EndsAt(sh, |keys|) && p < sh.count
  {
    SliceFits(sh, |keys|, p);
    keys[SliceStart(sh, p)..SliceStart(sh, p) + SliceLen(sh, p)]
  }

  /** No slice of a real process is clamped: process `p` receives the
      `SliceLen` keys from `SliceStart`, `effectif + 1` of them for the
      first `rest` processes and `effectif` for the others. */
  lemma NoClamping<K>(keys: seq<K>, sh: Sharing, p: nat)
    requires EndsAt(sh, |keys|) && p < sh.count
    ensures CodeSlice(keys, sh, p) == Slice(keys, sh, p)
    ensures |CodeSlice(keys, sh, p)| == if p < sh.rest then sh.effectif + 1 else sh.effectif
  {
    var a, len := SliceStart(sh, p), SliceLen(sh, p);
    SliceFits(sh, |keys|, p);
    SliceIsWindow(keys, sh, p, a, a + len);
    WindowExact(keys, CodeSlice(keys, sh, p), a, a + len);
  }

  lemma SliceIsWindow<K>(keys: seq<K>, sh: Sharing, p: nat, a: int, b: int)
    requires a == SliceStart(sh, p) && b == a + SliceLen(sh, p)
    ensures CodeSlice(keys, sh, p) == PySlice(keys, a, b)
  {
    CodeBounds(sh, p);
  }

  lemma WindowExact<K>(keys: seq<K>, s: seq<K>, a: nat, b: nat)
    requires a <= b <= |keys| && s == PySlice(keys, a, b)
    ensures s == keys[a..b] && |s| == b - a
  {
    PySliceExact(keys, a, b);
  }

  /** The slices of processes `0..p-1`, concatenated in process order. */
  function Concat<K>(keys: seq<K>, sh: Sharing, p: nat): seq<K>
    requires EndsAt(sh, |keys|) && p <= sh.count
  {
    if p == 0 then [] else Concat(keys, sh, p - 1) + Slice(keys, sh, p - 1)
  }

  lemma {:induction false} ConcatPrefix<K>(keys: seq<K>, sh: Sharing, p: nat)
    requires EndsAt(sh, |keys|) && p <= sh.count
    ensures SliceStart(sh, p) <= |keys|
    ensures Concat(keys, sh, p) == keys[..SliceStart(sh, p)]
  {
    if p > 0 {
      ConcatPrefix(keys, sh, p - 1);
      SliceFits(sh, |keys|, p - 1);
      SliceStartNext(sh, p - 1);
      Append(keys, Concat(keys, sh, p - 1), Slice(keys, sh, p - 1), SliceStart(sh, p - 1), SliceStart(sh, p));
    }
  }

  lemma SliceFits(sh: Sharing, n: nat, p: nat)
    requires EndsAt(sh, n) && p < sh.count
    ensures SliceStart(sh, p) + SliceLen(sh, p) <= n
  {
    SliceStartNext(sh, p);
    SliceStartMonotone(sh, p + 1, sh.count);
  }

  lemma Append<K>(keys: seq<K>, prefix: seq<K>, slice: seq<K>, a: nat, b: nat)
    requires a <= b <= |keys| && prefix == keys[..a] && slice == keys[a..b]
    ensures prefix + slice == keys[..b]
  {
    assert keys[..b] == keys[..a] + keys[a..b];
  }

  /** The slices tile the key list: concatenated in process order they give
      back every key, once, in order. */
  lemma SlicesTile<K>(keys: seq<K>, cpus: nat)
    ensures var sh := Share(|keys|, cpus); EndsAt(sh, |keys|) && Concat(keys, sh, sh.count) == keys
  {
    var sh := Share(|keys|, cpus);
    ShareSplits(|keys|, cpus);
    SliceStartLast(sh, |keys|);
    ConcatPrefix(keys, sh, sh.count);
  }

  /** The process whose slice holds key position `i`: there is exactly
      one. */
  method Owner(sh: Sharing, n: nat, i: nat) returns (p: nat)
    requires sh.count >= 1 && EndsAt(sh, n) && i < n
    ensures p < sh.count && SliceStart(sh, p) <= i < SliceStart(sh, p + 1)
    ensures forall q: nat :: q < sh.count && SliceStart(sh, q) <= i < SliceStart(sh, q + 1) ==> q == p
  {
    p := 0;
    while SliceStart(sh, p + 1) <= i
      invariant p < sh.count && SliceStart(sh, p) <= i
      decreases sh.count - p
    {
      p := p + 1;
    }
    forall q: nat | q < sh.count && SliceStart(sh, q) <= i < SliceStart(sh, q + 1)
      ensures q == p
    {
      if q < p {
        SliceStartMonotone(sh, q + 1, p);
      } else if p < q {
        SliceStartMonotone(sh, p + 1, q);
      }
    }
  }
}
