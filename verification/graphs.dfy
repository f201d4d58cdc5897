/**
 Undirected reachability over a finite set of index pairs: the reference
 definition of "connected component" against which both the sweep and the
 brute-force oracle are stated.
 */
module Graphs {
  import opened Geometry

  type Edge = (nat, nat)

  /** Edges are undirected: `(a, b)` links `b` to `a` as well. */
  ghost predicate Adjacent(e: set<Edge>, a: nat, b: nat) {
    (a, b) in e || (b, a) in e
  }

  ghost predicate IsPath(e: set<Edge>, path: seq<nat>) {
    forall k :: 0 <= k < |path| - 1 ==> Adjacent(e, path[k], path[k + 1])
  }

  ghost predicate Connected(e: set<Edge>, p: nat, q: nat) {
    exists path :: IsPath(e, path) && |path| > 0 && path[0] == p && path[|path| - 1] == q
  }

  /** The proximity graph over `pts`: every pair of indices whose points are
      within distance `d`. */
  ghost function ProximityEdges(pts: seq<Point>, d: int): set<Edge> {
    set a: nat, b: nat | a < |pts| && b < |pts| && Within(pts[a], pts[b], d) :: (a, b)
  }

  /** The edges listed in a sequence of pairs. */
  ghost function EdgeSet(pairs: seq<Edge>): set<Edge> {
    set k | 0 <= k < |pairs| :: pairs[k]
  }

  lemma EdgeSetAppend(pairs: seq<Edge>, pair: Edge)
    ensures EdgeSet(pairs + [pair]) == EdgeSet(pairs) + {pair}
  {
    var ps := pairs + [pair];
    assert forall k :: 0 <= k < |pairs| ==> ps[k] == pairs[k];
    assert ps[|pairs|] == pair;
  }

  lemma ConnectedMono(e1: set<Edge>, e2: set<Edge>, p: nat, q: nat)
    requires e1 <= e2 && Connected(e1, p, q)
    ensures Connected(e2, p, q)
  {
    var path :| IsPath(e1, path) && |path| > 0 && path[0] == p && path[|path| - 1] == q;
    assert IsPath(e2, path);
  }

  lemma ConnectedRefl(e: set<Edge>, p: nat)
    ensures Connected(e, p, p)
  {
    assert IsPath(e, [p]);
  }

  lemma EdgeConnected(e: set<Edge>, a: nat, b: nat)
    requires Adjacent(e, a, b)
    ensures Connected(e, a, b)
  {
    assert IsPath(e, [a, b]);
  }

  lemma ConnectedSym(e: set<Edge>, p: nat, q: nat)
    requires Connected(e, p, q)
    ensures Connected(e, q, p)
  {
    var path :| IsPath(e, path) && |path| > 0 && path[0] == p && path[|path| - 1] == q;
    var rev := seq(|path|, k requires 0 <= k < |path| => path[|path| - 1 - k]);
    forall k | 0 <= k < |rev| - 1
      ensures Adjacent(e, rev[k], rev[k + 1])
    {
      assert Adjacent(e, path[|path| - 2 - k], path[|path| - 1 - k]);
    }
    assert IsPath(e, rev);
  }

  lemma ConnectedTrans(e: set<Edge>, p: nat, q: nat, r: nat)
    requires Connected(e, p, q) && Connected(e, q, r)
    ensures Connected(e, p, r)
  {
    var p1 :| IsPath(e, p1) && |p1| > 0 && p1[0] == p && p1[|p1| - 1] == q;
    var p2 :| IsPath(e, p2) && |p2| > 0 && p2[0] == q && p2[|p2| - 1] == r;
    var joined := p1 + p2[1..];
    forall k | 0 <= k < |joined| - 1
      ensures Adjacent(e, joined[k], joined[k + 1])
    {
      if k < |p1| - 1 {
        assert joined[k] == p1[k] && joined[k + 1] == p1[k + 1];
      } else {
        assert joined[k] == p2[k - |p1| + 1] && joined[k + 1] == p2[k - |p1| + 2];
      }
    }
    assert IsPath(e, joined);
  }

  /** Every edge of `e1` that is not a self-loop is an edge of `e2`, in one
      direction or the other: reachability in `e1` carries over to `e2`. */
  lemma {:induction false} ConnectedTransfer(e1: set<Edge>, e2: set<Edge>, p: nat, q: nat)
    requires forall a, b :: (a, b) in e1 && a != b ==> Adjacent(e2, a, b)
    requires Connected(e1, p, q)
    ensures Connected(e2, p, q)
  {
    var path :| IsPath(e1, path) && |path| > 0 && path[0] == p && path[|path| - 1] == q;
    PathTransfer(e1, e2, path);
  }

  lemma {:induction false} PathTransfer(e1: set<Edge>, e2: set<Edge>, path: seq<nat>)
    requires forall a, b :: (a, b) in e1 && a != b ==> Adjacent(e2, a, b)
    requires IsPath(e1, path) && |path| > 0
    ensures Connected(e2, path[0], path[|path| - 1])
    decreases |path|
  {
    if |path| == 1 {
      ConnectedRefl(e2, path[0]);
    } else {
      var front := path[..|path| - 1];
      assert IsPath(e1, front);
      PathTransfer(e1, e2, front);
      var a, b := path[|path| - 2], path[|path| - 1];
      assert Adjacent(e1, a, b);
      if a == b {
      } else {
        assert Adjacent(e2, a, b);
        EdgeConnected(e2, a, b);
        ConnectedTrans(e2, path[0], a, b);
      }
    }
  }

  /** A set closed under the edges contains every node reachable from it. */
  lemma {:induction false} PathStaysIn(e: set<Edge>, s: set<nat>, path: seq<nat>)
    requires forall a, b :: (a, b) in e ==> (a in s <==> b in s)
    requires IsPath(e, path) && |path| > 0 && path[0] in s
    ensures path[|path| - 1] in s
    decreases |path|
  {
    if |path| > 1 {
      var front := path[..|path| - 1];
      assert IsPath(e, front);
      PathStaysIn(e, s, front);
      assert Adjacent(e, path[|path| - 2], path[|path| - 1]);
    }
  }

  lemma NotConnectedAcrossClosedSet(e: set<Edge>, s: set<nat>, p: nat, q: nat)
    requires forall a, b :: (a, b) in e ==> (a in s <==> b in s)
    requires p in s && q !in s
    ensures !Connected(e, p, q)
  {
    if Connected(e, p, q) {
      var path :| IsPath(e, path) && |path| > 0 && path[0] == p && path[|path| - 1] == q;
      PathStaysIn(e, s, path);
    }
  }

  /** Without edges every node is alone. */
  lemma ConnectedNoEdges(e: set<Edge>, p: nat, q: nat)
    requires e == {}
    ensures Connected(e, p, q) <==> p == q
  {
    if p == q {
      ConnectedRefl(e, p);
    } else {
      NotConnectedAcrossClosedSet(e, {p}, p, q);
    }
  }
}
