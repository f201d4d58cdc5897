/**
 The x-sorted sweep of connectes.py, with the generator and its consumer
 flattened into one loop: for each point not yet registered, advance the
 forward-only cursor past the points at least `d` to the left, open a
 fresh group, and scan the points up to `d` to the right; every scanned
 point inside the ±d box and within distance `d` is a yielded pair, which
 the consumer step (`Link`) applies to the registry at once.
 */
module Sweep {
  import opened Geometry
  import opened Sizes
  import opened Graphs
  import opened Partition
  import opened Seqs

  /** The scan started at `s` yields `j`: `j` lies right of the cursor
      (x > x_s - d), does not pass the loop bound (x <= x_s + d), is not
      `s`, lies inside the y band and passes the distance test. */
  predicate Eligible(pts: seq<Point>, d: int, s: nat, j: nat) {
    && s < |pts| && j < |pts| && j != s
    && pts[s].x - d < pts[j].x <= pts[s].x + d
    && pts[s].y - d <= pts[j].y <= pts[s].y + d
    && Within(pts[s], pts[j], d)
  }

  /** The pairs yielded by scans started at the points of `origins`. */
  ghost function ScanEdges(pts: seq<Point>, d: int, origins: set<nat>): set<Edge> {
    set s: nat, j: nat | s in origins && j < |pts| && Eligible(pts, d, s, j) :: (s, j)
  }

  /** Every two points of one group are joined by a chain of yielded pairs. */
  ghost predicate Sound(r: Registry, pairs: seq<Edge>) {
    forall p, q :: SameGroup(r, p, q) ==> Connected(EdgeSet(pairs), p, q)
  }

  /** Every yielded pair ends up in one group. */
  ghost predicate Complete(r: Registry, pairs: seq<Edge>) {
    forall k :: 0 <= k < |pairs| ==> SameGroup(r, pairs[k].0, pairs[k].1)
  }

  lemma EquivConnected(r: Registry, pairs: seq<Edge>, e: set<Edge>, p: nat, q: nat)
    requires Sound(r, pairs) && EdgeSet(pairs) <= e && Equiv(r, p, q)
    ensures Connected(e, p, q)
  {
    if p == q {
      ConnectedRefl(e, p);
    } else {
      ConnectedMono(EdgeSet(pairs), e, p, q);
    }
  }

  /** The consumer step keeps the registry equal to the components of the
      yielded pairs. */
  lemma LinkKeeps(r: Registry, pairs: seq<Edge>, i: nat, j: nat)
    requires Valid(r) && i in r.register && Sound(r, pairs) && Complete(r, pairs)
    ensures Sound(Link(r, i, j), pairs + [(i, j)])
    ensures Complete(Link(r, i, j), pairs + [(i, j)])
  {
    var r' := Link(r, i, j);
    var ys := pairs + [(i, j)];
    var e := EdgeSet(ys);
    EdgeSetAppend(pairs, (i, j));
    assert Adjacent(e, i, j) && Adjacent(e, j, i);
    forall p, q | SameGroup(r', p, q)
      ensures Connected(e, p, q)
    {
      assert Equiv(r', p, q);
      if Equiv(r, p, q) {
        EquivConnected(r, pairs, e, p, q);
      } else if Equiv(r, p, i) && Equiv(r, q, j) {
        EquivConnected(r, pairs, e, p, i);
        EquivConnected(r, pairs, e, j, q);
        EdgeConnected(e, i, j);
        ConnectedTrans(e, p, i, j);
        ConnectedTrans(e, p, j, q);
      } else {
        assert Equiv(r, p, j) && Equiv(r, q, i);
        EquivConnected(r, pairs, e, p, j);
        EquivConnected(r, pairs, e, i, q);
        EdgeConnected(e, j, i);
        ConnectedTrans(e, p, j, i);
        ConnectedTrans(e, p, i, q);
      }
    }
    forall k | 0 <= k < |ys|
      ensures SameGroup(r', ys[k].0, ys[k].1)
    {
      if k < |pairs| {
        var a, b := pairs[k].0, pairs[k].1;
        assert ys[k] == pairs[k];
        assert SameGroup(r, a, b);
        assert Equiv(r', a, b);
      }
    }
  }

  /** The cursor loop: skips the points whose x is at most `x - d`. On
      x-sorted points the cursor then separates exactly those points from
      the rest. */
  method AdvanceCursor(pts: seq<Point>, x: int, d: int, cursor: nat) returns (c: nat)
    requires SortedByX(pts) && cursor <= |pts|
    ensures cursor <= c <= |pts|
    ensures forall k :: cursor <= k < c ==> pts[k].x <= x - d
    ensures forall k :: c <= k < |pts| ==> pts[k].x > x - d
  {
    c := cursor;
    while c < |pts| && pts[c].x <= x - d
      invariant cursor <= c <= |pts|
      invariant forall k :: cursor <= k < c ==> pts[k].x <= x - d
    {
      c := c + 1;
    }
  }

  /** The points the scan from `i` yields among indices `lo..hi-1`. */
  ghost function Window(pts: seq<Point>, d: int, i: nat, lo: nat, hi: nat): set<nat> {
    set k: nat | lo <= k < hi && Eligible(pts, d, i, k)
  }

  /** The points the scan from `i` yields. */
  ghost function Targets(pts: seq<Point>, d: int, i: nat): set<nat> {
    Window(pts, d, i, 0, |pts|)
  }

  /** The pairs from `i` to each point of `targets`. */
  ghost function From(i: nat, targets: set<nat>): set<Edge> {
    set k | k in targets :: (i, k)
  }

  lemma WindowGrow(pts: seq<Point>, d: int, i: nat, lo: nat, hi: nat)
    requires lo <= hi
    ensures Window(pts, d, i, lo, hi + 1)
         == Window(pts, d, i, lo, hi) + (if Eligible(pts, d, i, hi) then {hi} else {})
  {
  }

  lemma FromAdd(i: nat, targets: set<nat>, k: nat)
    ensures From(i, targets + {k}) == From(i, targets) + {(i, k)}
  {
  }

  /** Once the scan stops, the window it covered holds every point the scan
      from `i` can yield. */
  lemma WindowComplete(pts: seq<Point>, d: int, i: nat, cursor: nat, j: nat)
    requires SortedByX(pts) && i < |pts| && cursor <= j <= |pts|
    requires forall k :: 0 <= k < cursor ==> pts[k].x <= pts[i].x - d
    requires j < |pts| ==> pts[j].x > pts[i].x + d
    ensures Window(pts, d, i, cursor, j) == Targets(pts, d, i)
  {
  }

  /** One iteration of the inner scan: the point at `j` is examined and, when
      it passes, linked to `i`'s group and recorded as a yielded pair. */
  method ScanStep(pts: seq<Point>, d: int, i: nat, j: nat, r: Registry, pairs: seq<Edge>)
    returns (r': Registry, pairs': seq<Edge>)
    requires i < |pts| && j < |pts| && pts[j].x > pts[i].x - d && pts[j].x <= pts[i].x + d
    requires Valid(r) && i in r.register && Sound(r, pairs) && Complete(r, pairs)
    ensures Valid(r') && i in r'.register && Sound(r', pairs') && Complete(r', pairs')
    ensures r'.register.Keys == r.register.Keys + (if Eligible(pts, d, i, j) then {j} else {})
    ensures r'.groups.Keys <= r.groups.Keys
    ensures EdgeSet(pairs') == EdgeSet(pairs) + (if Eligible(pts, d, i, j) then {(i, j)} else {})
  {
    if j != i && pts[i].y - d <= pts[j].y <= pts[i].y + d && Within(pts[i], pts[j], d) {
      LinkKeeps(r, pairs, i, j);
      EdgeSetAppend(pairs, (i, j));
      r' := Link(r, i, j);
      pairs' := pairs + [(i, j)];
    } else {
      r', pairs' := r, pairs;
    }
  }

  /** What the inner scan from `i` has established once indices
      `cursor..j-1` were examined, relative to the registry `r` and pairs
      `pairs` it started from. */
  ghost predicate ScanState(pts: seq<Point>, d: int, i: nat, cursor: nat, j: nat,
                            r: Registry, pairs: seq<Edge>, r': Registry, pairs': seq<Edge>) {
    && Valid(r') && i in r'.register && Sound(r', pairs') && Complete(r', pairs')
    && r'.register.Keys == r.register.Keys + Window(pts, d, i, cursor, j)
    && r'.groups.Keys <= r.groups.Keys
    && EdgeSet(pairs') == EdgeSet(pairs) + From(i, Window(pts, d, i, cursor, j))
  }

  /** One step of the inner scan advances its state by one index. */
  lemma ScanStateStep(pts: seq<Point>, d: int, i: nat, cursor: nat, j: nat,
                      r: Registry, pairs: seq<Edge>, r1: Registry, pairs1: seq<Edge>,
                      r2: Registry, pairs2: seq<Edge>)
    requires cursor <= j && ScanState(pts, d, i, cursor, j, r, pairs, r1, pairs1)
    requires Valid(r2) && i in r2.register && Sound(r2, pairs2) && Complete(r2, pairs2)
    requires r2.register.Keys == r1.register.Keys + (if Eligible(pts, d, i, j) then {j} else {})
    requires r2.groups.Keys <= r1.groups.Keys
    requires EdgeSet(pairs2) == EdgeSet(pairs1) + (if Eligible(pts, d, i, j) then {(i, j)} else {})
    ensures ScanState(pts, d, i, cursor, j + 1, r, pairs, r2, pairs2)
  {
    WindowGrow(pts, d, i, cursor, j);
    if Eligible(pts, d, i, j) {
      FromAdd(i, Window(pts, d, i, cursor, j), j);
    }
  }

  /** The loop body of the inner scan, stated on the scan's state. */
  method ScanNext(pts: seq<Point>, d: int, i: nat, cursor: nat, j: nat,
                  r: Registry, pairs: seq<Edge>, r1: Registry, pairs1: seq<Edge>)
    returns (r2: Registry, pairs2: seq<Edge>)
    requires i < |pts| && cursor <= j < |pts| && pts[j].x > pts[i].x - d && pts[j].x <= pts[i].x + d
    requires ScanState(pts, d, i, cursor, j, r, pairs, r1, pairs1)
    ensures ScanState(pts, d, i, cursor, j + 1, r, pairs, r2, pairs2)
  {
    r2, pairs2 := ScanStep(pts, d, i, j, r1, pairs1);
    ScanStateStep(pts, d, i, cursor, j, r, pairs, r1, pairs1, r2, pairs2);
  }

  /** The inner scan from point `i`, starting at the cursor, with the
      consumer step applied to every yielded pair. */
  method ScanWindow(pts: seq<Point>, d: int, i: nat, cursor: nat, r: Registry, pairs: seq<Edge>)
    returns (r': Registry, pairs': seq<Edge>)
    requires SortedByX(pts) && i < |pts| && cursor <= |pts|
    requires forall k :: 0 <= k < cursor ==> pts[k].x <= pts[i].x - d
    requires forall k :: cursor <= k < |pts| ==> pts[k].x > pts[i].x - d
    requires Valid(r) && i in r.register && Sound(r, pairs) && Complete(r, pairs)
    ensures Valid(r') && Sound(r', pairs') && Complete(r', pairs')
    ensures r'.register.Keys == r.register.Keys + Targets(pts, d, i)
    ensures r'.groups.Keys <= r.groups.Keys
    ensures EdgeSet(pairs') == EdgeSet(pairs) + From(i, Targets(pts, d, i))
  {
    r', pairs' := r, pairs;
    var j := cursor;
    while j < |pts| && pts[j].x <= pts[i].x + d
      invariant cursor <= j <= |pts|
      invariant ScanState(pts, d, i, cursor, j, r, pairs, r', pairs')
    {
      r', pairs' := ScanNext(pts, d, i, cursor, j, r, pairs, r', pairs');
      j := j + 1;
    }
    WindowComplete(pts, d, i, cursor, j);
  }

  /** Some scan started at a point of `starts` yields `k`. */
  ghost predicate Reached(pts: seq<Point>, d: int, starts: seq<nat>, k: nat) {
    exists s :: s in starts && Eligible(pts, d, s, k)
  }

  /** No scan started before `k` yields `k`: the condition under which the
      sweep finds `k` unregistered and starts a group from it. */
  ghost predicate Unreached(pts: seq<Point>, d: int, starts: seq<nat>, k: nat) {
    forall s :: s in starts && s < k ==> !Eligible(pts, d, s, k)
  }

  /** The points the sweep starts groups from, in increasing order: exactly
      those no earlier starting point yields. */
  ghost predicate StartsExactly(pts: seq<Point>, d: int, starts: seq<nat>) {
    && (forall t :: 0 <= t < |starts| ==> starts[t] < |pts|)
    && (forall t, u :: 0 <= t < u < |starts| ==> starts[t] < starts[u])
    && (forall k: nat :: k < |pts| ==> (k in starts <==> Unreached(pts, d, starts, k)))
  }

  /** `cursors[t]` is the cursor used by the scan from `starts[t]`: it
      separates the points at least `d` left of that point from the rest. */
  ghost predicate CursorsExact(pts: seq<Point>, d: int, starts: seq<nat>, cursors: seq<nat>) {
    && |cursors| == |starts|
    && (forall t :: 0 <= t < |starts| ==> starts[t] < |pts| && cursors[t] <= |pts|)
    && (forall t, k :: 0 <= t < |starts| && 0 <= k < |pts| ==>
          (k < cursors[t] <==> pts[k].x <= pts[starts[t]].x - d))
  }

  ghost predicate NonDecreasing(s: seq<nat>) {
    forall t, u :: 0 <= t <= u < |s| ==> s[t] <= s[u]
  }

  /** Two of the first `n` points share a group exactly when a chain of
      yielded pairs joins them. */
  ghost predicate Partitioned(r: Registry, n: nat, pairs: seq<Edge>) {
    forall p: nat, q: nat :: p < n && q < n ==> (SameGroup(r, p, q) <==> Connected(EdgeSet(pairs), p, q))
  }

  /** What the sweep has established once points `0..i-1` were visited. */
  ghost predicate SweepState(pts: seq<Point>, d: int, i: nat, r: Registry, starts: seq<nat>,
                             cursors: seq<nat>, cursor: nat, pairs: seq<Edge>) {
    && i <= |pts|
    && SweepCore(pts, d, r, starts, cursors, cursor, pairs)
    && (forall t :: 0 <= t < |starts| ==> starts[t] < i)
    && (forall k: nat :: k < i ==> (k in starts <==> Unreached(pts, d, starts, k)))
    && (forall k: nat :: k < i ==> k in r.register)
  }

  /** The part of the sweep's state that does not depend on how far the
      outer loop got. */
  ghost predicate SweepCore(pts: seq<Point>, d: int, r: Registry, starts: seq<nat>,
                            cursors: seq<nat>, cursor: nat, pairs: seq<Edge>) {
    && SortedByX(pts) && cursor <= |pts|
    && Valid(r) && Sound(r, pairs) && Complete(r, pairs)
    && (forall g :: g in r.groups ==> g < |starts|)
    && (forall t, u :: 0 <= t < u < |starts| ==> starts[t] < starts[u])
    && EdgeSet(pairs) == ScanEdges(pts, d, Elements(starts))
    && (forall k: nat :: k in r.register <==> k in starts || Reached(pts, d, starts, k))
    && CursorsExact(pts, d, starts, cursors)
    && NonDecreasing(cursors)
    && (if |starts| == 0 then cursor == 0 else cursor == cursors[|cursors| - 1])
  }

  lemma ScanEdgesInsert(pts: seq<Point>, d: int, origins: set<nat>, i: nat)
    ensures ScanEdges(pts, d, origins + {i}) == ScanEdges(pts, d, origins) + From(i, Targets(pts, d, i))
  {
  }

  lemma ScanEdgesAdd(pts: seq<Point>, d: int, starts: seq<nat>, i: nat)
    ensures ScanEdges(pts, d, Elements(starts + [i])) == ScanEdges(pts, d, Elements(starts)) + From(i, Targets(pts, d, i))
  {
    assert Elements(starts + [i]) == Elements(starts) + {i};
    ScanEdgesInsert(pts, d, Elements(starts), i);
  }

  /** The body of the outer loop for a point `i` that is not registered:
      advance the cursor, open group `nextId` = {i}, and scan. */
  method StartGroup(pts: seq<Point>, d: int, i: nat, nextId: nat, r: Registry, starts: seq<nat>,
                    cursors: seq<nat>, cursor: nat, pairs: seq<Edge>)
    returns (r': Registry, starts': seq<nat>, cursors': seq<nat>, cursor': nat, pairs': seq<Edge>)
    requires SweepState(pts, d, i, r, starts, cursors, cursor, pairs)
    requires i < |pts| && i !in r.register && nextId == |starts|
    ensures SweepState(pts, d, i + 1, r', starts', cursors', cursor', pairs')
    ensures starts' == starts + [i]
  {
    CursorBeforeStart(pts, d, i, starts, cursors, cursor);
    cursor' := AdvanceCursor(pts, pts[i].x, d, cursor);
    var r1, _ := OpenIfNew(i, nextId, r, pairs);
    starts' := starts + [i];
    cursors' := cursors + [cursor'];
    CursorsGrow(pts, d, i, starts, cursors, cursor, cursor');
    r', pairs' := ScanWindow(pts, d, i, cursor', r1, pairs);
    ScanEdgesAdd(pts, d, starts, i);
    assert !Reached(pts, d, starts, i);
    StartGroupRegister(pts, d, i, r, r', starts);
    StartGroupStarts(pts, d, i, starts);
    StartsGrow(starts, i);
  }

  lemma StartsGrow(starts: seq<nat>, i: nat)
    requires forall t :: 0 <= t < |starts| ==> starts[t] < i
    requires forall t, u :: 0 <= t < u < |starts| ==> starts[t] < starts[u]
    ensures forall t :: 0 <= t < |starts + [i]| ==> (starts + [i])[t] < i + 1
    ensures forall t, u :: 0 <= t < u < |starts + [i]| ==> (starts + [i])[t] < (starts + [i])[u]
  {
  }

  /** The last cursor only passed points left of every later start. */
  lemma CursorBeforeStart(pts: seq<Point>, d: int, i: nat, starts: seq<nat>, cursors: seq<nat>, cursor: nat)
    requires SortedByX(pts) && i < |pts| && cursor <= |pts|
    requires forall t :: 0 <= t < |starts| ==> starts[t] < i
    requires CursorsExact(pts, d, starts, cursors)
    requires if |starts| == 0 then cursor == 0 else cursor == cursors[|cursors| - 1]
    ensures forall k :: 0 <= k < cursor ==> pts[k].x <= pts[i].x - d
  {
    if |starts| > 0 {
      var last := starts[|starts| - 1];
      assert pts[last].x <= pts[i].x;
      forall k | 0 <= k < cursor
        ensures pts[k].x <= pts[i].x - d
      {
        assert pts[k].x <= pts[last].x - d;
      }
    }
  }

  lemma CursorsGrow(pts: seq<Point>, d: int, i: nat, starts: seq<nat>, cursors: seq<nat>, cursor: nat, c: nat)
    requires i < |pts| && cursor <= c <= |pts|
    requires CursorsExact(pts, d, starts, cursors) && NonDecreasing(cursors)
    requires if |starts| == 0 then cursor == 0 else cursor == cursors[|cursors| - 1]
    requires forall k :: 0 <= k < |pts| ==> (k < c <==> pts[k].x <= pts[i].x - d)
    ensures CursorsExact(pts, d, starts + [i], cursors + [c])
    ensures NonDecreasing(cursors + [c])
  {
    var ss, cs := starts + [i], cursors + [c];
    forall t | 0 <= t < |ss|
      ensures ss[t] < |pts| && cs[t] <= |pts|
      ensures forall k :: 0 <= k < |pts| ==> (k < cs[t] <==> pts[k].x <= pts[ss[t]].x - d)
    {
      if t < |starts| {
        assert ss[t] == starts[t] && cs[t] == cursors[t];
      }
    }
    forall t, u | 0 <= t <= u < |cs|
      ensures cs[t] <= cs[u]
    {
      if u < |cursors| {
        assert cs[t] == cursors[t] && cs[u] == cursors[u];
      } else if t < |cursors| {
        assert cursors[t] <= cursors[|cursors| - 1];
      }
    }
  }

  lemma NewGroupKeeps(r: Registry, r1: Registry, pairs: seq<Edge>)
    requires Sound(r, pairs) && Complete(r, pairs)
    requires r.register.Keys <= r1.register.Keys
    requires forall a, b :: Equiv(r1, a, b) <==> Equiv(r, a, b)
    ensures Sound(r1, pairs) && Complete(r1, pairs)
  {
    forall p, q | SameGroup(r1, p, q)
      ensures Connected(EdgeSet(pairs), p, q)
    {
      assert Equiv(r1, p, q);
      if p == q { ConnectedRefl(EdgeSet(pairs), p); }
    }
    forall k | 0 <= k < |pairs|
      ensures SameGroup(r1, pairs[k].0, pairs[k].1)
    {
      assert SameGroup(r, pairs[k].0, pairs[k].1);
      assert Equiv(r1, pairs[k].0, pairs[k].1);
    }
  }

  lemma StartGroupRegister(pts: seq<Point>, d: int, i: nat, r: Registry, r': Registry, starts: seq<nat>)
    requires forall k: nat :: k in r.register <==> k in starts || Reached(pts, d, starts, k)
    requires r'.register.Keys == r.register.Keys + {i} + Targets(pts, d, i)
    ensures forall k: nat :: k in r'.register <==> k in starts + [i] || Reached(pts, d, starts + [i], k)
  {
    forall k: nat
      ensures k in r'.register <==> k in starts + [i] || Reached(pts, d, starts + [i], k)
    {
      if Reached(pts, d, starts + [i], k) {
        var s :| s in starts + [i] && Eligible(pts, d, s, k);
        if s != i {
          assert s in starts;
          assert Reached(pts, d, starts, k);
        } else {
          assert k in Targets(pts, d, i);
        }
      }
      if k in Targets(pts, d, i) {
        assert Eligible(pts, d, i, k);
        assert i in starts + [i];
      }
      if Reached(pts, d, starts, k) {
        var s :| s in starts && Eligible(pts, d, s, k);
        assert s in starts + [i];
      }
    }
  }

  lemma StartGroupStarts(pts: seq<Point>, d: int, i: nat, starts: seq<nat>)
    requires forall t :: 0 <= t < |starts| ==> starts[t] < i
    requires forall k: nat :: k < i ==> (k in starts <==> Unreached(pts, d, starts, k))
    requires Unreached(pts, d, starts, i)
    ensures forall k: nat :: k < i + 1 ==> (k in starts + [i] <==> Unreached(pts, d, starts + [i], k))
  {
    forall k: nat | k < i + 1
      ensures k in starts + [i] <==> Unreached(pts, d, starts + [i], k)
    {
      assert forall s :: s in starts + [i] && s < k ==> s in starts;
      assert forall s :: s in starts && s < k ==> s in starts + [i];
    }
  }

  /** A registered point is yielded by an earlier scan, so the sweep skips it. */
  lemma SkipPoint(pts: seq<Point>, d: int, i: nat, r: Registry, starts: seq<nat>,
                  cursors: seq<nat>, cursor: nat, pairs: seq<Edge>)
    requires SweepState(pts, d, i, r, starts, cursors, cursor, pairs)
    requires i < |pts| && i in r.register
    ensures SweepState(pts, d, i + 1, r, starts, cursors, cursor, pairs)
  {
    assert i !in starts;
    assert Reached(pts, d, starts, i);
    var s :| s in starts && Eligible(pts, d, s, i);
    assert !Unreached(pts, d, starts, i);
    forall k: nat | k < i + 1
      ensures k in starts <==> Unreached(pts, d, starts, k)
    {
      if k == i {
        assert !Unreached(pts, d, starts, k);
      }
    }
    forall t | 0 <= t < |starts|
      ensures starts[t] < i + 1
    {
    }
  }

  /** The outcome of the sweep over all `n` points: every point registered,
      the groups are exactly the components of the yielded pairs, and the
      yielded pairs are those of the scans from the starting points. */
  ghost predicate SweepOutcome(pts: seq<Point>, d: int, r: Registry, starts: seq<nat>, pairs: seq<Edge>) {
    && Valid(r)
    && RegistersAll(r, |pts|)
    && StartsExactly(pts, d, starts)
    && EdgeSet(pairs) == ScanEdges(pts, d, Elements(starts))
    && Partitioned(r, |pts|, pairs)
  }

  lemma FinishSweep(pts: seq<Point>, d: int, r: Registry, starts: seq<nat>,
                    cursors: seq<nat>, cursor: nat, pairs: seq<Edge>)
    requires SweepState(pts, d, |pts|, r, starts, cursors, cursor, pairs)
    ensures SweepOutcome(pts, d, r, starts, pairs)
  {
    forall k: nat | k in r.register
      ensures k < |pts|
    {
      if k !in starts {
        assert Reached(pts, d, starts, k);
      }
    }
    ComponentsOfPairs(r, |pts|, pairs);
  }

  /** Once all `n` points are registered, soundness and completeness make the
      groups exactly the components of the yielded pairs. */
  lemma ComponentsOfPairs(r: Registry, n: nat, pairs: seq<Edge>)
    requires Valid(r) && Sound(r, pairs) && Complete(r, pairs)
    requires RegistersAll(r, n)
    ensures Partitioned(r, n, pairs)
  {
    var e := EdgeSet(pairs);
    forall a, b | (a, b) in e
      ensures Equiv(r, a, b)
    {
      var k :| 0 <= k < |pairs| && pairs[k] == (a, b);
      assert SameGroup(r, pairs[k].0, pairs[k].1);
    }
    forall p: nat, q: nat | p < n && q < n
      ensures SameGroup(r, p, q) <==> Connected(e, p, q)
    {
      if Connected(e, p, q) {
        ClosedUnderEdges(r, e, p, q);
        assert p in r.register && q in r.register;
      }
    }
  }

  /** The sweep of `print_components_sizes` over x-sorted points, as written:
      only points not yet registered start a scan. `starts` lists the points
      a group was opened for (group `t` opened for `starts[t]`), `cursors`
      the cursor value each scan started from, `pairs` the yielded pairs in
      order. */
  method ComparisonSweep(pts: seq<Point>, d: int)
    returns (r: Registry, starts: seq<nat>, cursors: seq<nat>, pairs: seq<Edge>)
    requires SortedByX(pts)
    ensures SweepOutcome(pts, d, r, starts, pairs)
    ensures forall g :: g in r.groups ==> g < |starts|
    ensures CursorsExact(pts, d, starts, cursors) && NonDecreasing(cursors)
  {
    r := Registry(map[], map[]);
    starts, cursors, pairs := [], [], [];
    var cursor: nat := 0;
    var nextId: nat := 0;
    var i: nat := 0;
    while i < |pts|
      invariant SweepState(pts, d, i, r, starts, cursors, cursor, pairs)
      invariant nextId == |starts|
    {
      if i !in r.register {
        r, starts, cursors, cursor, pairs := StartGroup(pts, d, i, nextId, r, starts, cursors, cursor, pairs);
        nextId := nextId + 1;
      } else {
        SkipPoint(pts, d, i, r, starts, cursors, cursor, pairs);
      }
      i := i + 1;
    }
    FinishSweep(pts, d, r, starts, cursors, cursor, pairs);
  }

  // The corrected sweep: every point advances the cursor and scans, and only
  // the group creation depends on the point being unregistered.

  /** Some scan from a point before `i` yields `k`. */
  ghost predicate ReachedBefore(pts: seq<Point>, d: int, i: nat, k: nat) {
    exists s: nat :: s < i && Eligible(pts, d, s, k)
  }

  /** What the corrected sweep has established once points `0..i-1` were
      visited. */
  ghost predicate ScanAllState(pts: seq<Point>, d: int, i: nat, r: Registry, nextId: nat,
                               cursor: nat, pairs: seq<Edge>) {
    && SortedByX(pts) && i <= |pts| && cursor <= |pts|
    && Valid(r) && Sound(r, pairs) && Complete(r, pairs)
    && (forall g :: g in r.groups ==> g < nextId)
    && EdgeSet(pairs) == ScanEdges(pts, d, Indices(i))
    && (forall k: nat :: k in r.register <==> k < i || ReachedBefore(pts, d, i, k))
    && (i < |pts| ==> forall k :: 0 <= k < cursor ==> pts[k].x <= pts[i].x - d)
  }

  /** One iteration of the corrected outer loop. */
  method ScanFrom(pts: seq<Point>, d: int, i: nat, nextId: nat, r: Registry, cursor: nat, pairs: seq<Edge>)
    returns (r': Registry, nextId': nat, cursor': nat, pairs': seq<Edge>)
    requires ScanAllState(pts, d, i, r, nextId, cursor, pairs) && i < |pts|
    ensures ScanAllState(pts, d, i + 1, r', nextId', cursor', pairs')
  {
    cursor' := AdvanceCursor(pts, pts[i].x, d, cursor);
    var r1;
    r1, nextId' := OpenIfNew(i, nextId, r, pairs);
    r', pairs' := ScanWindow(pts, d, i, cursor', r1, pairs);
    ScanFromEdges(pts, d, i, pairs, pairs');
    ScanFromRegister(pts, d, i, r, r');
    ScanFromCursor(pts, d, i, cursor');
  }

  /** Group creation, only for a point no earlier scan reached. */
  method OpenIfNew(i: nat, nextId: nat, r: Registry, pairs: seq<Edge>) returns (r': Registry, nextId': nat)
    requires Valid(r) && Sound(r, pairs) && Complete(r, pairs)
    requires forall g :: g in r.groups ==> g < nextId
    ensures Valid(r') && Sound(r', pairs) && Complete(r', pairs)
    ensures r'.register.Keys == r.register.Keys + {i}
    ensures forall g :: g in r'.groups ==> g < nextId'
    ensures i in r.register ==> r' == r && nextId' == nextId
    ensures i !in r.register ==> nextId in r'.groups && r'.groups[nextId] == {i} && nextId' == nextId + 1
  {
    if i !in r.register {
      r' := NewGroup(r, i, nextId);
      nextId' := nextId + 1;
      NewGroupKeeps(r, r', pairs);
    } else {
      r', nextId' := r, nextId;
    }
  }

  lemma ScanFromEdges(pts: seq<Point>, d: int, i: nat, pairs: seq<Edge>, pairs': seq<Edge>)
    requires EdgeSet(pairs) == ScanEdges(pts, d, Indices(i))
    requires EdgeSet(pairs') == EdgeSet(pairs) + From(i, Targets(pts, d, i))
    ensures EdgeSet(pairs') == ScanEdges(pts, d, Indices(i + 1))
  {
    ScanEdgesInsert(pts, d, Indices(i), i);
    assert Indices(i + 1) == Indices(i) + {i};
  }

  lemma ScanFromCursor(pts: seq<Point>, d: int, i: nat, cursor': nat)
    requires SortedByX(pts) && i < |pts| && cursor' <= |pts|
    requires forall k :: 0 <= k < cursor' ==> pts[k].x <= pts[i].x - d
    ensures i + 1 < |pts| ==> forall k :: 0 <= k < cursor' ==> pts[k].x <= pts[i + 1].x - d
  {
    if i + 1 < |pts| {
      assert pts[i].x <= pts[i + 1].x;
    }
  }

  lemma ScanFromRegister(pts: seq<Point>, d: int, i: nat, r: Registry, r': Registry)
    requires forall k: nat :: k in r.register <==> k < i || ReachedBefore(pts, d, i, k)
    requires r'.register.Keys == r.register.Keys + {i} + Targets(pts, d, i)
    ensures forall k: nat :: k in r'.register <==> k < i + 1 || ReachedBefore(pts, d, i + 1, k)
  {
    forall k: nat
      ensures k in r'.register <==> k < i + 1 || ReachedBefore(pts, d, i + 1, k)
    {
      if ReachedBefore(pts, d, i + 1, k) {
        var s: nat :| s < i + 1 && Eligible(pts, d, s, k);
        if s < i {
          assert ReachedBefore(pts, d, i, k);
        } else {
          assert k in Targets(pts, d, i);
        }
      }
      if k in Targets(pts, d, i) {
        assert Eligible(pts, d, i, k);
      }
      if ReachedBefore(pts, d, i, k) {
        var s: nat :| s < i && Eligible(pts, d, s, k);
        assert s < i + 1;
      }
    }
  }

  /** The sweep with the evidently intended behaviour: a scan from every
      point, so every pair the sweep's filters accept is yielded. */
  method CorrectedSweep(pts: seq<Point>, d: int) returns (r: Registry, nextId: nat, pairs: seq<Edge>)
    requires SortedByX(pts)
    ensures Valid(r) && RegistersAll(r, |pts|)
    ensures forall g :: g in r.groups ==> g < nextId
    ensures EdgeSet(pairs) == ScanEdges(pts, d, Indices(|pts|))
    ensures Partitioned(r, |pts|, pairs)
  {
    r := Registry(map[], map[]);
    nextId, pairs := 0, [];
    var cursor: nat := 0;
    var i: nat := 0;
    while i < |pts|
      invariant ScanAllState(pts, d, i, r, nextId, cursor, pairs)
    {
      r, nextId, cursor, pairs := ScanFrom(pts, d, i, nextId, r, cursor, pairs);
      i := i + 1;
    }
    assert forall k: nat :: ReachedBefore(pts, d, |pts|, k) ==> k < |pts|;
    ComponentsOfPairs(r, |pts|, pairs);
  }

  /** Every yielded pair is a proximity pair, and for a nonzero threshold
      every proximity pair of distinct points is yielded by the scan from
      the one that comes first. */
  lemma ScanEdgesAreProximity(pts: seq<Point>, d: int)
    requires SortedByX(pts)
    ensures ScanEdges(pts, d, Indices(|pts|)) <= ProximityEdges(pts, d)
    ensures d != 0 ==> forall a, b :: (a, b) in ProximityEdges(pts, d) && a != b ==>
              Adjacent(ScanEdges(pts, d, Indices(|pts|)), a, b)
  {
    var scan := ScanEdges(pts, d, Indices(|pts|));
    IndicesBelow(|pts|);
    if d != 0 {
      forall a, b | (a, b) in ProximityEdges(pts, d) && a != b
        ensures Adjacent(scan, a, b)
      {
        if a < b {
          WithinImpliesBox(pts[a], pts[b], d);
          assert Eligible(pts, d, a, b);
        } else {
          WithinSymmetric(pts[a], pts[b], d);
          WithinImpliesBox(pts[b], pts[a], d);
          assert Eligible(pts, d, b, a);
        }
      }
    }
  }

  /** With a nonzero threshold the scans from every point join exactly the
      points the proximity graph joins. */
  lemma ScanAllMatchesProximity(pts: seq<Point>, d: int, p: nat, q: nat)
    requires SortedByX(pts) && d != 0
    ensures Connected(ScanEdges(pts, d, Indices(|pts|)), p, q) <==> Connected(ProximityEdges(pts, d), p, q)
  {
    var scan, prox := ScanEdges(pts, d, Indices(|pts|)), ProximityEdges(pts, d);
    ScanEdgesAreProximity(pts, d);
    if Connected(scan, p, q) {
      ConnectedMono(scan, prox, p, q);
    }
    if Connected(prox, p, q) {
      ConnectedTransfer(prox, scan, p, q);
    }
  }

  /** With threshold 0 no pair passes the cursor and bound tests
      (x_s < x_j <= x_s), so every point stays alone, even one that coincides
      with another. */
  lemma ScanAllZeroDistance(pts: seq<Point>, p: nat, q: nat)
    ensures Connected(ScanEdges(pts, 0, Indices(|pts|)), p, q) <==> p == q
  {
    assert ScanEdges(pts, 0, Indices(|pts|)) == {};
    ConnectedNoEdges(ScanEdges(pts, 0, Indices(|pts|)), p, q);
  }

  /** The groups of the corrected sweep are the connected components of the
      proximity graph (threshold not 0); with threshold 0 they are singletons. */
  lemma CorrectedSweepComponents(pts: seq<Point>, d: int, r: Registry, pairs: seq<Edge>)
    requires SortedByX(pts)
    requires EdgeSet(pairs) == ScanEdges(pts, d, Indices(|pts|)) && Partitioned(r, |pts|, pairs)
    ensures d != 0 ==> forall p: nat, q: nat :: p < |pts| && q < |pts| ==>
              (SameGroup(r, p, q) <==> Connected(ProximityEdges(pts, d), p, q))
    ensures d == 0 ==> forall p: nat, q: nat :: p < |pts| && q < |pts| ==> (SameGroup(r, p, q) <==> p == q)
  {
    forall p: nat, q: nat | p < |pts| && q < |pts|
      ensures d != 0 ==> (SameGroup(r, p, q) <==> Connected(ProximityEdges(pts, d), p, q))
      ensures d == 0 ==> (SameGroup(r, p, q) <==> p == q)
    {
      if d != 0 {
        ScanAllMatchesProximity(pts, d, p, q);
      } else {
        ScanAllZeroDistance(pts, p, q);
      }
    }
  }

  /** Four x-sorted points for which the sweep as written splits a
      component (threshold 10). */
  function SplitExample(): (pts: seq<Point>)
    ensures SortedByX(pts) && |pts| == 4
  {
    [Point(0, 0), Point(0, 19), Point(5, 5), Point(6, 12)]
  }

  /** The sweep as written: points 2 and 3 are within distance 10 of each
      other, but point 2 is reached from 0 and point 3 from 1, neither starts
      a scan, so the pair (2, 3) is never compared and the two groups
      {0, 2} and {1, 3} stay apart. */
  lemma SweepSplitsComponent(r: Registry, starts: seq<nat>, pairs: seq<Edge>)
    requires SweepOutcome(SplitExample(), 10, r, starts, pairs)
    ensures Within(SplitExample()[2], SplitExample()[3], 10)
    ensures !SameGroup(r, 2, 3)
    ensures SameGroup(r, 0, 2) && SameGroup(r, 1, 3)
  {
    var pts := SplitExample();
    ExampleStarts(starts);
    var e := EdgeSet(pairs);
    ExampleEdges(starts, e);
    NotConnectedAcrossClosedSet(e, {0, 2}, 2, 3);
    EdgeConnected(e, 0, 2);
    EdgeConnected(e, 1, 3);
  }

  /** The example's scans start from points 0 and 1 only. */
  lemma ExampleStarts(starts: seq<nat>)
    requires StartsExactly(SplitExample(), 10, starts)
    ensures forall s :: s in starts <==> s == 0 || s == 1
  {
    var pts := SplitExample();
    assert !Eligible(pts, 10, 0, 1);
    assert Eligible(pts, 10, 0, 2) && Eligible(pts, 10, 1, 3);
    assert 0 in starts by {
      assert Unreached(pts, 10, starts, 0);
    }
    assert 1 in starts by {
      assert Unreached(pts, 10, starts, 1);
    }
    assert 2 !in starts by {
      assert !Unreached(pts, 10, starts, 2);
    }
    assert 3 !in starts by {
      assert !Unreached(pts, 10, starts, 3);
    }
    forall s | s in starts
      ensures s == 0 || s == 1
    {
      var t :| 0 <= t < |starts| && starts[t] == s;
      assert s < 4;
    }
  }

  /** The example's yielded pairs are (0, 2) and (1, 3). */
  lemma ExampleEdges(starts: seq<nat>, e: set<Edge>)
    requires forall s :: s in starts <==> s == 0 || s == 1
    requires e == ScanEdges(SplitExample(), 10, Elements(starts))
    ensures e == {(0, 2), (1, 3)}
  {
    var pts := SplitExample();
    assert Elements(starts) == {0, 1};
    assert Eligible(pts, 10, 0, 2) && Eligible(pts, 10, 1, 3);
    assert !Eligible(pts, 10, 0, 0) && !Eligible(pts, 10, 0, 1) && !Eligible(pts, 10, 0, 3);
    assert !Eligible(pts, 10, 1, 0) && !Eligible(pts, 10, 1, 1) && !Eligible(pts, 10, 1, 2);
  }

  /** On the same points the corrected sweep puts 2 and 3 in one group. */
  lemma CorrectedSweepJoins(r: Registry, pairs: seq<Edge>)
    requires EdgeSet(pairs) == ScanEdges(SplitExample(), 10, Indices(4)) && Partitioned(r, 4, pairs)
    ensures SameGroup(r, 2, 3)
  {
    var pts := SplitExample();
    assert Eligible(pts, 10, 2, 3);
    assert (2, 3) in EdgeSet(pairs);
    EdgeConnected(EdgeSet(pairs), 2, 3);
  }
}
