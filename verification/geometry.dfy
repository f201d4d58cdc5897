/**
 Points of the plane, the distance test shared by the sweep and by the
 brute-force oracle, and the lexicographic sort applied before the sweep.
 Coordinates and the threshold are integers; the square root of the
 original distance computation is replaced by a comparison of squares.
 */
module Geometry {

  datatype Point = Point(x: int, y: int)

  /** `p` and `q` are at Euclidean distance at most `d` (inclusive). A
      negative threshold admits no pair, as a square root is never negative. */
  predicate Within(p: Point, q: Point, d: int) {
    d >= 0 && (p.x - q.x) * (p.x - q.x) + (p.y - q.y) * (p.y - q.y) <= d * d
  }

  lemma SquareBound(a: int, d: int)
    requires d >= 0
    ensures a * a <= d * d ==> -d <= a <= d
  {
    if a > d {
      assert a * a - d * d == (a - d) * (a + d);
      assert (a - d) * (a + d) > 0;
    } else if a < -d {
      assert a * a - d * d == (d - a) * (-d - a);
      assert (d - a) * (-d - a) > 0;
    }
  }

  /** The distance test implies the ±d box test on both axes, so the box
      filter of the sweep never discards a pair the distance test accepts. */
  lemma WithinImpliesBox(p: Point, q: Point, d: int)
    requires Within(p, q, d)
    ensures p.x - d <= q.x <= p.x + d
    ensures p.y - d <= q.y <= p.y + d
  {
    var dx, dy := p.x - q.x, p.y - q.y;
    assert dx * dx + dy * dy <= d * d;
    assert 0 <= dy * dy;
    assert 0 <= dx * dx;
    SquareBound(dx, d);
    SquareBound(dy, d);
  }

  lemma WithinSymmetric(p: Point, q: Point, d: int)
    ensures Within(p, q, d) <==> Within(q, p, d)
  {
    assert (p.x - q.x) * (p.x - q.x) == (q.x - p.x) * (q.x - p.x);
    assert (p.y - q.y) * (p.y - q.y) == (q.y - p.y) * (q.y - p.y);
  }

  /** The threshold is inclusive: a point exactly `d` away horizontally is
      within reach, one unit further is not. */
  lemma InclusiveThreshold(p: Point, d: int)
    requires d >= 0
    ensures Within(p, Point(p.x + d, p.y), d)
    ensures !Within(p, Point(p.x + d + 1, p.y), d)
  {
    assert (p.x - (p.x + d)) * (p.x - (p.x + d)) == d * d;
    assert (p.x - (p.x + d + 1)) * (p.x - (p.x + d + 1)) == d * d + 2 * d + 1;
  }

  /** The order the sweep sorts its points by: x first, then y. */
  predicate LexLe(p: Point, q: Point) {
    p.x < q.x || (p.x == q.x && p.y <= q.y)
  }

  predicate LexSorted(s: seq<Point>) {
    forall i, j :: 0 <= i < j < |s| ==> LexLe(s[i], s[j])
  }

  predicate SortedByX(s: seq<Point>) {
    forall i, j :: 0 <= i <= j < |s| ==> s[i].x <= s[j].x
  }

  lemma LexSortedIsSortedByX(s: seq<Point>)
    requires LexSorted(s)
    ensures SortedByX(s)
  {
  }

  function InsertPoint(p: Point, s: seq<Point>): (r: seq<Point>)
    requires LexSorted(s)
    ensures LexSorted(r)
    ensures multiset(r) == multiset(s) + multiset{p}
  {
    if |s| == 0 then [p]
    else if LexLe(p, s[0]) then [p] + s
    else
      var rest := InsertPoint(p, s[1..]);
      InsertPointCons(p, s, rest);
      [s[0]] + rest
  }

  /** The recursive case of `InsertPoint`: the head stays in front. */
  lemma InsertPointCons(p: Point, s: seq<Point>, rest: seq<Point>)
    requires |s| > 0 && LexSorted(s) && !LexLe(p, s[0])
    requires LexSorted(rest) && multiset(rest) == multiset(s[1..]) + multiset{p}
    ensures LexSorted([s[0]] + rest)
    ensures multiset([s[0]] + rest) == multiset(s) + multiset{p}
  {
    assert s == [s[0]] + s[1..];
    forall k | 0 <= k < |rest|
      ensures LexLe(s[0], rest[k])
    {
      assert rest[k] in multiset(s[1..]) + multiset{p};
      if rest[k] != p {
        var m :| 0 <= m < |s[1..]| && s[1..][m] == rest[k];
        assert s[m + 1] == rest[k];
      }
    }
    var c := [s[0]] + rest;
    forall i, j | 0 <= i < j < |c|
      ensures LexLe(c[i], c[j])
    {
      if i > 0 {
        assert c[i] == rest[i - 1] && c[j] == rest[j - 1];
      } else {
        assert c[j] == rest[j - 1];
      }
    }
  }

  /** Insertion sort: the points in lexicographic order, same multiset. */
  function SortPoints(s: seq<Point>): (r: seq<Point>)
    ensures LexSorted(r)
    ensures multiset(r) == multiset(s)
    ensures |r| == |s|
  {
    if |s| == 0 then []
    else
      assert s == [s[0]] + s[1..];
      InsertPoint(s[0], SortPoints(s[1..]))
  }

  /** Two sorted orderings of the same points coincide, so the sort's output
      depends only on the multiset of its input. */
  lemma {:induction false} SortedUnique(a: seq<Point>, b: seq<Point>)
    requires LexSorted(a) && LexSorted(b)
    requires multiset(a) == multiset(b)
    ensures a == b
  {
    if |a| == 0 {
      assert |multiset(b)| == 0;
    } else {
      assert |b| == |multiset(b)| == |multiset(a)| == |a|;
      LexHeadsEqual(a, b);
      assert a == [a[0]] + a[1..];
      assert b == [b[0]] + b[1..];
      assert multiset(a[1..]) == multiset(a) - multiset{a[0]};
      assert multiset(b[1..]) == multiset(b) - multiset{b[0]};
      SortedUnique(a[1..], b[1..]);
    }
  }

  lemma LexHeadsEqual(a: seq<Point>, b: seq<Point>)
    requires LexSorted(a) && LexSorted(b) && |a| > 0 && |b| > 0
    requires multiset(a) == multiset(b)
    ensures a[0] == b[0]
  {
    assert a[0] in multiset(b);
    assert b[0] in multiset(a);
    var i :| 0 <= i < |b| && b[i] == a[0];
    var j :| 0 <= j < |a| && a[j] == b[0];
    assert LexLe(b[0], a[0]) && LexLe(a[0], b[0]);
  }
}
