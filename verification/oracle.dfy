/**
 The brute-force oracle of validity.py: a subset of the cells of a 4×4 grid
 is decoded into points, every point starts as its own group, and the groups
 are merged over all index pairs in `combinations` order whenever the pair
 is in two different groups and within the distance. The resulting groups
 are the connected components of the proximity graph.
 */
module Oracle {
  import opened Geometry
  import opened Sizes
  import opened Graphs
  import opened Partition
  import opened Subsets

  /** Side of the grid the subsets are drawn from. */
  const GraphSize: nat := 4
  /** Distance threshold of the oracle. */
  const Distance: int := 1

  /** A cell number as a grid point: column `value % 4`, row `value / 4`. */
  function Decode(value: nat): (p: Point)
    ensures 0 <= p.x < GraphSize && 0 <= p.y
    ensures value < GraphSize * GraphSize ==> p.y < GraphSize
  {
    Point(value % GraphSize, value / GraphSize)
  }

  /** The cell number of a point of the grid. */
  function Encode(p: Point): (value: nat)
    requires 0 <= p.x < GraphSize && 0 <= p.y
    ensures p.y < GraphSize ==> value < GraphSize * GraphSize
  {
    p.x + GraphSize * p.y
  }

  lemma EncodeDecode(value: nat)
    ensures Encode(Decode(value)) == value
  {
  }

  lemma DecodeEncode(p: Point)
    requires 0 <= p.x < GraphSize && 0 <= p.y
    ensures Decode(Encode(p)) == p
  {
    var v := p.x + GraphSize * p.y;
    assert v / GraphSize == p.y && v % GraphSize == p.x by {
      assert v == GraphSize * p.y + p.x && 0 <= p.x < GraphSize;
    }
  }

  /** Distinct cells decode to distinct points, so a subset of cells is a
      set of distinct points. */
  lemma DecodeInjective(u: nat, v: nat)
    ensures Decode(u) == Decode(v) ==> u == v
  {
    EncodeDecode(u);
    EncodeDecode(v);
  }

  /** The points of a subset, in the order of its cells. */
  function DecodeAll(graph: seq<nat>): (pts: seq<Point>)
    ensures |pts| == |graph|
    ensures forall k :: 0 <= k < |graph| ==> 0 <= pts[k].x < GraphSize && 0 <= pts[k].y && Encode(pts[k]) == graph[k]
    ensures forall k :: 0 <= k < |graph| && graph[k] < GraphSize * GraphSize ==>
              0 <= pts[k].x < GraphSize && 0 <= pts[k].y < GraphSize
  {
    seq(|graph|, k requires 0 <= k < |graph| => Decode(graph[k]))
  }

  /** The registry after the initialisation loop has run `n` times: point
      `k` alone in group `k`, for every `k < n`. */
  ghost predicate SingletonRegistry(r: Registry, n: nat) {
    && (forall k: nat :: k in r.register <==> k < n)
    && (forall k :: k in r.register ==> r.register[k] == k)
    && (forall g :: g in r.groups <==> g in r.register)
    && (forall g :: g in r.groups ==> r.groups[g] == {g})
  }

  /** The initialisation loop: `register[p] = p` and `groups[p] = {p}`. */
  method Singletons(n: nat) returns (r: Registry)
    ensures Valid(r) && RegistersAll(r, n)
    ensures forall g :: g in r.groups ==> g < n && r.groups[g] == {g}
    ensures forall p: nat, q: nat :: SameGroup(r, p, q) <==> p == q && p < n
  {
    r := Registry(map[], map[]);
    var p: nat := 0;
    while p < n
      invariant p <= n
      invariant SingletonRegistry(r, p)
    {
      SingletonStep(r, p);
      r, p := Registry(r.register[p := p], r.groups[p := {p}]), p + 1;
    }
    SingletonValid(r, n);
  }

  lemma SingletonStep(r: Registry, p: nat)
    requires SingletonRegistry(r, p)
    ensures SingletonRegistry(Registry(r.register[p := p], r.groups[p := {p}]), p + 1)
  {
  }

  lemma SingletonValid(r: Registry, n: nat)
    requires SingletonRegistry(r, n)
    ensures Valid(r) && RegistersAll(r, n)
    ensures forall g :: g in r.groups ==> g < n && r.groups[g] == {g}
    ensures forall p: nat, q: nat :: SameGroup(r, p, q) <==> p == q && p < n
  {
  }

  /** The pair `(p, q)` comes before `(a, b)` in `combinations` order. */
  predicate Before(a: nat, b: nat, p: nat, q: nat) {
    p < a || (p == a && q < b)
  }

  /** The merge loop's invariant once the pairs before `(a, b)` were
      filtered: every point registered, every group inside a component, and
      every close pair already filtered in one group. */
  ghost predicate MergeState(pts: seq<Point>, d: int, a: nat, b: nat, r: Registry) {
    && Valid(r) && RegistersAll(r, |pts|)
    && (forall g :: g in r.groups ==> g < |pts|)
    && (forall p, q :: SameGroup(r, p, q) ==> Connected(ProximityEdges(pts, d), p, q))
    && Covers(pts, d, a, b, r)
  }

  /** Every close pair before `(a, b)` is inside one group. */
  ghost predicate Covers(pts: seq<Point>, d: int, a: nat, b: nat, r: Registry) {
    forall p: nat, q: nat :: p < q < |pts| && Before(a, b, p, q) && Within(pts[p], pts[q], d) ==>
      SameGroup(r, p, q)
  }

  /** Filtering pair `(a, b)` extends the covered prefix when the pair ends
      up in one group or is not close, and no group is split. */
  lemma CoversStep(pts: seq<Point>, d: int, a: nat, b: nat, r: Registry, r': Registry)
    requires Covers(pts, d, a, b, r)
    requires forall p, q :: SameGroup(r, p, q) ==> SameGroup(r', p, q)
    requires a < b < |pts| && (SameGroup(r', a, b) || !Within(pts[a], pts[b], d))
    ensures Covers(pts, d, a, b + 1, r')
  {
    forall p: nat, q: nat | p < q < |pts| && Before(a, b + 1, p, q) && Within(pts[p], pts[q], d)
      ensures SameGroup(r', p, q)
    {
      if Before(a, b, p, q) {
        assert SameGroup(r, p, q);
      } else {
        assert p == a && q == b;
      }
    }
  }

  /** Every member of a group merged at pair `(a, b)` is joined to `a` or to `b`. */
  lemma MergeSound(pts: seq<Point>, d: int, r: Registry, a: nat, b: nat, p: nat, q: nat)
    requires Valid(r) && a in r.register && b in r.register && a < |pts| && b < |pts|
    requires Within(pts[a], pts[b], d)
    requires forall p, q :: SameGroup(r, p, q) ==> Connected(ProximityEdges(pts, d), p, q)
    requires p in r.groups[r.register[a]] + r.groups[r.register[b]]
    requires q in r.groups[r.register[a]] + r.groups[r.register[b]]
    ensures Connected(ProximityEdges(pts, d), p, q)
  {
    var e := ProximityEdges(pts, d);
    assert (a, b) in e;
    EdgeConnected(e, a, b);
    ConnectedSym(e, a, b);
    // Each of p and q reaches a and b.
    assert Connected(e, p, a) && Connected(e, p, b) by {
      if p in r.groups[r.register[a]] {
        assert SameGroup(r, p, a);
        ConnectedTrans(e, p, a, b);
      } else {
        assert SameGroup(r, p, b);
        ConnectedTrans(e, p, b, a);
      }
    }
    if q in r.groups[r.register[a]] {
      assert SameGroup(r, a, q);
      ConnectedTrans(e, p, a, q);
    } else {
      assert SameGroup(r, b, q);
      ConnectedTrans(e, p, b, q);
    }
  }

  /** One pair of the lazy filter: merge when the two points are in
      different groups (read from the current register) and within the
      distance; the first point's group absorbs the second's, and the
      absorbed key is removed. */
  function FilterPair(pts: seq<Point>, d: int, a: nat, b: nat, r: Registry): (r': Registry)
    requires Valid(r) && a in r.register && b in r.register && a < |pts| && b < |pts|
    ensures Valid(r') && r'.register.Keys == r.register.Keys
    ensures SameGroup(r', a, b) <==> SameGroup(r, a, b) || Within(pts[a], pts[b], d)
    ensures forall p, q :: SameGroup(r, p, q) ==> SameGroup(r', p, q)
    ensures r.register[a] != r.register[b] && Within(pts[a], pts[b], d) ==>
              && r'.groups.Keys == r.groups.Keys - {r.register[b]}
              && r'.groups[r.register[a]] == r.groups[r.register[a]] + r.groups[r.register[b]]
              && (forall p :: p in r.groups[r.register[b]] ==> r'.register[p] == r.register[a])
    ensures r.register[a] == r.register[b] || !Within(pts[a], pts[b], d) ==> r' == r
  {
    if r.register[a] != r.register[b] && Within(pts[a], pts[b], d) then
      Merge(r, r.register[a], r.register[b])
    else
      r
  }

  method MergeStep(pts: seq<Point>, d: int, a: nat, b: nat, r: Registry) returns (r': Registry)
    requires MergeState(pts, d, a, b, r) && a < b < |pts|
    ensures MergeState(pts, d, a, b + 1, r')
  {
    r' := FilterPair(pts, d, a, b, r);
    if r.register[a] != r.register[b] && Within(pts[a], pts[b], d) {
      MergeKeeps(pts, d, a, b, r, r');
    } else {
      CoversStep(pts, d, a, b, r, r');
    }
  }

  lemma MergeKeeps(pts: seq<Point>, d: int, a: nat, b: nat, r: Registry, r': Registry)
    requires MergeState(pts, d, a, b, r) && a < b < |pts|
    requires r.register[a] != r.register[b] && Within(pts[a], pts[b], d)
    requires r' == Merge(r, r.register[a], r.register[b])
    ensures MergeState(pts, d, a, b + 1, r')
  {
    forall p, q | SameGroup(r', p, q)
      ensures Connected(ProximityEdges(pts, d), p, q)
    {
      if !SameGroup(r, p, q) {
        MergeSound(pts, d, r, a, b, p, q);
      }
    }
    assert SameGroup(r', a, b);
    CoversStep(pts, d, a, b, r, r');
  }

  /** The nested loops over `combinations(range(n), 2)` with the lazy
      filter: the groups come out as the components of the proximity
      graph. */
  method MergeAll(pts: seq<Point>, d: int) returns (r: Registry)
    ensures Valid(r) && RegistersAll(r, |pts|)
    ensures forall g :: g in r.groups ==> g < |pts|
    ensures forall p: nat, q: nat :: p < |pts| && q < |pts| ==>
              (SameGroup(r, p, q) <==> Connected(ProximityEdges(pts, d), p, q))
  {
    r := Singletons(|pts|);
    InitialState(pts, d, r);
    var a: nat := 0;
    while a < |pts|
      invariant a <= |pts|
      invariant MergeState(pts, d, a, a + 1, r)
    {
      r := MergeRow(pts, d, a, r);
      a := a + 1;
    }
    MergedComponents(pts, d, r);
  }

  lemma InitialState(pts: seq<Point>, d: int, r: Registry)
    requires Valid(r) && RegistersAll(r, |pts|)
    requires forall g :: g in r.groups ==> g < |pts|
    requires forall p: nat, q: nat :: SameGroup(r, p, q) <==> p == q && p < |pts|
    ensures MergeState(pts, d, 0, 1, r)
  {
    forall p, q | SameGroup(r, p, q)
      ensures Connected(ProximityEdges(pts, d), p, q)
    {
      ConnectedRefl(ProximityEdges(pts, d), p);
    }
  }

  /** The pairs `(a, b)` for `b` from `a + 1` up. */
  method MergeRow(pts: seq<Point>, d: int, a: nat, r: Registry) returns (r': Registry)
    requires a < |pts| && MergeState(pts, d, a, a + 1, r)
    ensures MergeState(pts, d, a + 1, a + 2, r')
  {
    r' := r;
    var b: nat := a + 1;
    while b < |pts|
      invariant a < b <= |pts|
      invariant MergeState(pts, d, a, b, r')
    {
      r' := MergeStep(pts, d, a, b, r');
      b := b + 1;
    }
    NextRow(pts, d, a, b, r');
  }

  /** Finishing row `a` is the same as starting row `a + 1`. */
  lemma NextRow(pts: seq<Point>, d: int, a: nat, b: nat, r: Registry)
    requires MergeState(pts, d, a, b, r) && b >= |pts|
    ensures MergeState(pts, d, a + 1, a + 2, r)
  {
    forall p: nat, q: nat | p < q < |pts| && Before(a + 1, a + 2, p, q) && Within(pts[p], pts[q], d)
      ensures SameGroup(r, p, q)
    {
      assert Before(a, b, p, q);
    }
  }

  /** Once every pair was filtered, every edge of the proximity graph lies
      inside a group, so groups and components coincide. */
  lemma MergedComponents(pts: seq<Point>, d: int, r: Registry)
    requires MergeState(pts, d, |pts|, |pts| + 1, r)
    ensures forall p: nat, q: nat :: p < |pts| && q < |pts| ==>
              (SameGroup(r, p, q) <==> Connected(ProximityEdges(pts, d), p, q))
  {
    var e := ProximityEdges(pts, d);
    forall p, q | (p, q) in e
      ensures Equiv(r, p, q)
    {
      if p < q {
        assert Before(|pts|, |pts| + 1, p, q);
      } else if q < p {
        WithinSymmetric(pts[p], pts[q], d);
        assert Before(|pts|, |pts| + 1, q, p);
        assert SameGroup(r, q, p);
      }
    }
    forall p: nat, q: nat | p < |pts| && q < |pts| && Connected(e, p, q)
      ensures SameGroup(r, p, q)
    {
      ClosedUnderEdges(r, e, p, q);
      assert p in r.register && q in r.register;
    }
  }

  /** `process_main` for one subset of cells: decode, merge, and list the
      group sizes largest first (groups are listed by increasing key, the
      order a dict filled with keys `0..n-1` keeps after deletions). */
  method ProcessMain(graph: seq<nat>) returns (pts: seq<Point>, r: Registry, counts: seq<nat>)
    ensures pts == DecodeAll(graph)
    ensures Valid(r) && RegistersAll(r, |graph|)
    ensures forall p: nat, q: nat :: p < |pts| && q < |pts| ==>
              (SameGroup(r, p, q) <==> Connected(ProximityEdges(pts, Distance), p, q))
    ensures ReportsSizes(r.groups, counts)
    ensures Sum(counts) == |graph| && |counts| == |r.groups|
  {
    pts := DecodeAll(graph);
    r := MergeAll(pts, Distance);
    counts := ReportSizes(r, |pts|, |pts|);
  }

  /** The jobs `main` submits over the 16 cells: 65535 of them, every
      non-empty subset once, in increasing cell order. */
  lemma ValidationJobs(s: seq<nat>)
    ensures |Enumeration(GraphSize * GraphSize)| == 65535
    ensures multiset(Enumeration(GraphSize * GraphSize))[s] ==
              if |s| > 0 && IncreasingIn(s, 0, GraphSize * GraphSize) then 1 else 0
  {
    EnumerationLength(GraphSize * GraphSize);
    Pow2Sixteen();
    EnumerationExactlyOnce(GraphSize * GraphSize, s);
  }

  /** Two to the number of cells, from which the job count follows. */
  lemma Pow2Sixteen()
    ensures Pow2(GraphSize * GraphSize) == 65536
  {
    assert Pow2(4) == 16;
    assert Pow2(8) == 256;
    assert Pow2(12) == 4096;
  }
}
