/**
 `print_components_sizes` of connectes.py: sort the points, run the sweep,
 and report the group sizes in non-increasing order. The corrected variant
 runs the sweep that scans from every point.
 */
module Components {
  import opened Geometry
  import opened Sizes
  import opened Graphs
  import opened Partition
  import opened Sweep

  /** The program as written: the groups are the components of the pairs the
      sweep yields (which can split a proximity component, see
      `Sweep.SweepSplitsComponent`), and the report lists their sizes. */
  method PrintComponentsSizes(d: int, points: seq<Point>)
    returns (sorted: seq<Point>, r: Registry, starts: seq<nat>, pairs: seq<Edge>, result: seq<nat>)
    ensures LexSorted(sorted) && multiset(sorted) == multiset(points)
    ensures SweepOutcome(sorted, d, r, starts, pairs)
    ensures ReportsSizes(r.groups, result)
    ensures Sum(result) == |points| && |result| == |r.groups|
  {
    sorted := SortPoints(points);
    LexSortedIsSortedByX(sorted);
    var cursors;
    r, starts, cursors, pairs := ComparisonSweep(sorted, d);
    result := ReportSizes(r, |starts|, |sorted|);
  }

  /** The evidently intended program: the groups are the connected
      components of the proximity graph of the sorted points (for a nonzero
      threshold), and the report lists their sizes. */
  method CorrectedComponentsSizes(d: int, points: seq<Point>)
    returns (sorted: seq<Point>, r: Registry, result: seq<nat>)
    ensures LexSorted(sorted) && multiset(sorted) == multiset(points)
    ensures Valid(r) && RegistersAll(r, |points|)
    ensures d != 0 ==> forall p: nat, q: nat :: p < |sorted| && q < |sorted| ==>
              (SameGroup(r, p, q) <==> Connected(ProximityEdges(sorted, d), p, q))
    ensures d == 0 ==> forall p: nat, q: nat :: p < |sorted| && q < |sorted| ==> (SameGroup(r, p, q) <==> p == q)
    ensures ReportsSizes(r.groups, result)
    ensures Sum(result) == |points| && |result| == |r.groups|
  {
    sorted := SortPoints(points);
    LexSortedIsSortedByX(sorted);
    var nextId, pairs;
    r, nextId, pairs := CorrectedSweep(sorted, d);
    CorrectedSweepComponents(sorted, d, r, pairs);
    result := ReportSizes(r, nextId, |sorted|);
  }
}
