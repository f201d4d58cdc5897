/**
 The registry both programs use as an ad-hoc union-find: `register` maps a
 point index to the id of its group, `groups` maps a group id to the set of
 its point indices. The operations here are the state changes the sweep's
 consumer loop and the brute-force oracle apply to it.
 */
module Partition {
  import opened Sizes
  import opened Graphs

  datatype Registry = Registry(register: map<nat, nat>, groups: map<nat, set<nat>>)

  /** The two maps agree (`register[p] == g` exactly when `p in groups[g]`)
      and no group is empty. */
  ghost predicate Valid(r: Registry) {
    && (forall p :: p in r.register ==> r.register[p] in r.groups && p in r.groups[r.register[p]])
    && (forall g, p :: g in r.groups && p in r.groups[g] ==> p in r.register && r.register[p] == g)
    && (forall g :: g in r.groups ==> r.groups[g] != {})
  }

  predicate SameGroup(r: Registry, p: nat, q: nat) {
    p in r.register && q in r.register && r.register[p] == r.register[q]
  }

  /** The partition as a relation on all indices: an unregistered index is
      related only to itself. */
  predicate Equiv(r: Registry, p: nat, q: nat) {
    p == q || SameGroup(r, p, q)
  }

  /** The indices `0..n-1` as a set. */
  ghost function Indices(n: nat): set<nat> {
    if n == 0 then {} else Indices(n - 1) + {n - 1}
  }

  /** The registered points are exactly `0..n-1`. */
  ghost predicate RegistersAll(r: Registry, n: nat) {
    forall k: nat :: k in r.register <==> k < n
  }

  lemma {:induction false} IndicesBelow(n: nat)
    ensures forall k: nat :: k in Indices(n) <==> k < n
    ensures |Indices(n)| == n
  {
    if n > 0 {
      IndicesBelow(n - 1);
    }
  }

  /** Consistency makes the groups pairwise disjoint. */
  lemma GroupsDisjoint(r: Registry, g: nat, h: nat)
    requires Valid(r) && g in r.groups && h in r.groups && g != h
    ensures r.groups[g] !! r.groups[h]
  {
    forall p | p in r.groups[g]
      ensures p !in r.groups[h]
    {
      assert r.register[p] == g;
    }
  }

  /** Group creation for an unregistered point: the singleton `{p}` under
      a fresh id; the partition of the other points is untouched. */
  function NewGroup(r: Registry, p: nat, id: nat): (r': Registry)
    requires Valid(r) && p !in r.register && id !in r.groups
    ensures Valid(r')
    ensures r'.register.Keys == r.register.Keys + {p}
    ensures r'.groups.Keys == r.groups.Keys + {id}
    ensures r'.groups[id] == {p} && r'.register[p] == id
    ensures forall g :: g in r.groups ==> r'.groups[g] == r.groups[g]
    ensures forall a, b :: Equiv(r', a, b) <==> Equiv(r, a, b)
  {
    Registry(r.register[p := id], r.groups[id := {p}])
  }

  /** Puts `q` into group `g`; `q` is either unregistered or already there. */
  function Attach(r: Registry, g: nat, q: nat): (r': Registry)
    requires Valid(r) && g in r.groups
    requires q in r.register ==> r.register[q] == g
    ensures Valid(r')
    ensures r'.register.Keys == r.register.Keys + {q}
    ensures r'.groups.Keys == r.groups.Keys
    ensures r'.register[q] == g
    ensures forall h :: h in r.groups && h != g ==> r'.groups[h] == r.groups[h]
    ensures forall a, b :: Equiv(r', a, b) <==>
              Equiv(r, a, b) || ((a == q || a in r.groups[g]) && (b == q || b in r.groups[g]))
    ensures q in r.register ==> r' == r
  {
    var r' := Registry(r.register[q := g], r.groups[g := r.groups[g] + {q}]);
    AttachRelation(r, g, q, r');
    if q in r.register then
      assert r.groups[g] + {q} == r.groups[g];
      assert r'.register == r.register;
      assert r'.groups == r.groups;
      r'
    else
      r'
  }

  lemma AttachRelation(r: Registry, g: nat, q: nat, r': Registry)
    requires Valid(r) && g in r.groups
    requires q in r.register ==> r.register[q] == g
    requires r' == Registry(r.register[q := g], r.groups[g := r.groups[g] + {q}])
    ensures forall a, b :: Equiv(r', a, b) <==>
              Equiv(r, a, b) || ((a == q || a in r.groups[g]) && (b == q || b in r.groups[g]))
  {
    forall a, b
      ensures Equiv(r', a, b) <==>
              Equiv(r, a, b) || ((a == q || a in r.groups[g]) && (b == q || b in r.groups[g]))
    {
      if a in r.register {
        assert a in r.groups[g] <==> r.register[a] == g;
      }
      if b in r.register {
        assert b in r.groups[g] <==> r.register[b] == g;
      }
    }
  }

  /** Moves every member of group `drop` into group `keep` and deletes the
      key `drop`; every other group is left as it was. */
  function Merge(r: Registry, keep: nat, drop: nat): (r': Registry)
    requires Valid(r) && keep in r.groups && drop in r.groups && keep != drop
    ensures Valid(r')
    ensures r'.register.Keys == r.register.Keys
    ensures r'.groups.Keys == r.groups.Keys - {drop}
    ensures |r'.groups| == |r.groups| - 1
    ensures r'.groups[keep] == r.groups[keep] + r.groups[drop]
    ensures forall p :: p in r.groups[drop] ==> r'.register[p] == keep
    ensures forall g :: g in r'.groups && g != keep ==> r'.groups[g] == r.groups[g]
    ensures forall a, b :: SameGroup(r', a, b) <==>
              SameGroup(r, a, b)
              || (a in r.groups[keep] + r.groups[drop] && b in r.groups[keep] + r.groups[drop])
  {
    var moved := r.groups[drop];
    var register' := map p | p in r.register :: if p in moved then keep else r.register[p];
    var groups' := (r.groups - {drop})[keep := r.groups[keep] + moved];
    MergeShape(r, keep, drop, register', groups');
    MergeValid(r, keep, drop, register', groups');
    MergeRelation(r, keep, drop, register', groups');
    Registry(register', groups')
  }

  /** The maps a merge builds: shapes of the key sets and of the moved
      entries. */
  lemma MergeShape(r: Registry, keep: nat, drop: nat,
                   register': map<nat, nat>, groups': map<nat, set<nat>>)
    requires Valid(r) && keep in r.groups && drop in r.groups && keep != drop
    requires register' == map p | p in r.register :: if p in r.groups[drop] then keep else r.register[p]
    requires groups' == (r.groups - {drop})[keep := r.groups[keep] + r.groups[drop]]
    ensures register'.Keys == r.register.Keys
    ensures groups'.Keys == r.groups.Keys - {drop}
    ensures |groups'| == |r.groups| - 1
    ensures groups'[keep] == r.groups[keep] + r.groups[drop]
    ensures forall p :: p in r.groups[drop] ==> register'[p] == keep
    ensures forall g :: g in groups' && g != keep ==> groups'[g] == r.groups[g]
  {
    assert groups'.Keys == r.groups.Keys - {drop};
    assert |r.groups.Keys - {drop}| == |r.groups.Keys| - 1;
  }

  lemma MergeValid(r: Registry, keep: nat, drop: nat,
                   register': map<nat, nat>, groups': map<nat, set<nat>>)
    requires Valid(r) && keep in r.groups && drop in r.groups && keep != drop
    requires register' == map p | p in r.register :: if p in r.groups[drop] then keep else r.register[p]
    requires groups' == (r.groups - {drop})[keep := r.groups[keep] + r.groups[drop]]
    ensures Valid(Registry(register', groups'))
  {
    var moved := r.groups[drop];
    GroupsDisjoint(r, keep, drop);
    forall p | p in register'
      ensures register'[p] in groups' && p in groups'[register'[p]]
    {
      if p !in moved {
        assert r.register[p] != drop;
      }
    }
    forall g, p | g in groups' && p in groups'[g]
      ensures p in register' && register'[p] == g
    {
      if g == keep {
        if p !in moved {
          assert p in r.groups[keep];
        }
      } else {
        assert g != drop && p in r.groups[g];
        assert r.register[p] == g;
      }
    }
  }

  lemma MergeRelation(r: Registry, keep: nat, drop: nat,
                      register': map<nat, nat>, groups': map<nat, set<nat>>)
    requires Valid(r) && keep in r.groups && drop in r.groups && keep != drop
    requires register' == map p | p in r.register :: if p in r.groups[drop] then keep else r.register[p]
    ensures forall a, b :: SameGroup(Registry(register', groups'), a, b) <==>
              SameGroup(r, a, b)
              || (a in r.groups[keep] + r.groups[drop] && b in r.groups[keep] + r.groups[drop])
  {
    var moved := r.groups[drop];
    var r' := Registry(register', groups');
    forall a, b
      ensures SameGroup(r', a, b) <==>
              SameGroup(r, a, b) || (a in r.groups[keep] + moved && b in r.groups[keep] + moved)
    {
      if a in r.register && b in r.register {
        assert a in r.groups[keep] + moved <==> r.register[a] == keep || r.register[a] == drop;
        assert b in r.groups[keep] + moved <==> r.register[b] == keep || r.register[b] == drop;
      }
    }
  }

  /** The consumer step of the sweep for a yielded pair `(i, j)`: when `j`
      already belongs to another group, `i`'s whole group moves into `j`'s
      group and `i`'s group key disappears; then `j` is put into `i`'s group
      (a no-op after a merge or when both already share a group). */
  function Link(r: Registry, i: nat, j: nat): (r': Registry)
    requires Valid(r) && i in r.register
    ensures Valid(r')
    ensures r'.register.Keys == r.register.Keys + {j}
    ensures r'.groups.Keys <= r.groups.Keys
    ensures SameGroup(r', i, j)
    ensures forall a, b :: Equiv(r', a, b) <==>
              Equiv(r, a, b) || (Equiv(r, a, i) && Equiv(r, b, j)) || (Equiv(r, a, j) && Equiv(r, b, i))
  {
    var r1 := if j in r.register && i !in r.groups[r.register[j]]
              then Merge(r, r.register[j], r.register[i])
              else r;
    var r' := Attach(r1, r1.register[i], j);
    if j in r.register && i !in r.groups[r.register[j]] then
      LinkRelationMerge(r, i, j);
      r'
    else if j in r.register then
      r'
    else
      LinkRelationAttach(r, i, j);
      r'
  }

  lemma LinkRelationMerge(r: Registry, i: nat, j: nat)
    requires Valid(r) && i in r.register && j in r.register && r.register[i] != r.register[j]
    ensures var r' := Merge(r, r.register[j], r.register[i]);
      forall a, b :: Equiv(r', a, b) <==>
        Equiv(r, a, b) || (Equiv(r, a, i) && Equiv(r, b, j)) || (Equiv(r, a, j) && Equiv(r, b, i))
  {
    var r' := Merge(r, r.register[j], r.register[i]);
    var u := r.groups[r.register[j]] + r.groups[r.register[i]];
    forall c
      ensures c in u <==> Equiv(r, c, i) || Equiv(r, c, j)
    {
      if c in u {
        assert r.register[c] == r.register[i] || r.register[c] == r.register[j];
      }
    }
  }

  lemma LinkRelationAttach(r: Registry, i: nat, j: nat)
    requires Valid(r) && i in r.register && j !in r.register
    ensures var r' := Attach(r, r.register[i], j);
      forall a, b :: Equiv(r', a, b) <==>
        Equiv(r, a, b) || (Equiv(r, a, i) && Equiv(r, b, j)) || (Equiv(r, a, j) && Equiv(r, b, i))
  {
    var g := r.register[i];
    forall c
      ensures c in r.groups[g] <==> Equiv(r, c, i)
    {
      if c in r.groups[g] {
        assert r.register[c] == g;
      }
    }
    assert forall c :: c == j <==> Equiv(r, c, j);
  }

  /** When both points already share a group the step changes nothing. */
  lemma LinkIdempotent(r: Registry, i: nat, j: nat)
    requires Valid(r) && i in r.register && SameGroup(r, i, j)
    ensures Link(r, i, j) == r
  {
  }

  /** A neighbour registered in another group absorbs the current group:
      the current group key is deleted, its members point to the
      neighbour's group, the group count drops by one, and no other group
      changes. */
  lemma LinkAbsorbs(r: Registry, i: nat, j: nat)
    requires Valid(r) && i in r.register && j in r.register && !SameGroup(r, i, j)
    ensures var r' := Link(r, i, j);
      && r'.groups.Keys == r.groups.Keys - {r.register[i]}
      && |r'.groups| == |r.groups| - 1
      && r'.groups[r.register[j]] == r.groups[r.register[j]] + r.groups[r.register[i]]
      && (forall p :: p in r.groups[r.register[i]] ==> r'.register[p] == r.register[j])
      && (forall g :: g in r'.groups && g != r.register[j] ==> r'.groups[g] == r.groups[g])
  {
    assert i !in r.groups[r.register[j]];
  }

  /** An unregistered neighbour joins the current group; the group count
      is unchanged. */
  lemma LinkAttaches(r: Registry, i: nat, j: nat)
    requires Valid(r) && i in r.register && j !in r.register
    ensures var r' := Link(r, i, j);
      && r'.groups.Keys == r.groups.Keys
      && r'.groups[r.register[i]] == r.groups[r.register[i]] + {j}
      && (forall g :: g in r.groups && g != r.register[i] ==> r'.groups[g] == r.groups[g])
  {
  }

  /** If every edge joins two indices of one group, so does every path. */
  lemma {:induction false} ClosedUnderEdges(r: Registry, e: set<Edge>, p: nat, q: nat)
    requires forall a, b :: (a, b) in e ==> Equiv(r, a, b)
    requires Connected(e, p, q)
    ensures Equiv(r, p, q)
  {
    var path :| IsPath(e, path) && |path| > 0 && path[0] == p && path[|path| - 1] == q;
    PathInOneGroup(r, e, path);
  }

  lemma {:induction false} PathInOneGroup(r: Registry, e: set<Edge>, path: seq<nat>)
    requires forall a, b :: (a, b) in e ==> Equiv(r, a, b)
    requires IsPath(e, path) && |path| > 0
    ensures Equiv(r, path[0], path[|path| - 1])
    decreases |path|
  {
    if |path| > 1 {
      var front := path[..|path| - 1];
      assert IsPath(e, front);
      PathInOneGroup(r, e, front);
      assert Adjacent(e, path[|path| - 2], path[|path| - 1]);
    }
  }

  /** Sizes of the groups with id below `bound`, in increasing id order
      (the order in which a dict keyed by increasing ids lists its values). */
  function GroupSizes(groups: map<nat, set<nat>>, bound: nat): seq<nat> {
    if bound == 0 then []
    else GroupSizes(groups, bound - 1) + (if bound - 1 in groups then [|groups[bound - 1]|] else [])
  }

  ghost function Members(r: Registry, bound: nat): set<nat> {
    set p | p in r.register && r.register[p] < bound
  }

  ghost function IdsBelow(groups: map<nat, set<nat>>, bound: nat): set<nat> {
    set g | g in groups && g < bound
  }

  /** Each registered point is counted once: the sizes of the groups below
      `bound` add up to the number of points registered in them. */
  lemma {:induction false} SumGroupSizes(r: Registry, bound: nat)
    requires Valid(r)
    ensures Sum(GroupSizes(r.groups, bound)) == |Members(r, bound)|
  {
    if bound > 0 {
      var b := bound - 1;
      SumGroupSizes(r, b);
      var last := if b in r.groups then [|r.groups[b]|] else [];
      SumAppend(GroupSizes(r.groups, b), last);
      if b in r.groups {
        MembersStep(r, b);
        assert Sum(last) == |r.groups[b]|;
      } else {
        assert Members(r, bound) == Members(r, b);
      }
    }
  }

  lemma MembersStep(r: Registry, b: nat)
    requires Valid(r) && b in r.groups
    ensures |Members(r, b + 1)| == |Members(r, b)| + |r.groups[b]|
  {
    assert Members(r, b + 1) == Members(r, b) + r.groups[b];
    assert Members(r, b) !! r.groups[b];
  }

  lemma {:induction false} CountGroupSizes(groups: map<nat, set<nat>>, bound: nat)
    ensures |GroupSizes(groups, bound)| == |IdsBelow(groups, bound)|
  {
    if bound > 0 {
      CountGroupSizes(groups, bound - 1);
      if bound - 1 in groups {
        assert IdsBelow(groups, bound) == IdsBelow(groups, bound - 1) + {bound - 1};
      } else {
        assert IdsBelow(groups, bound) == IdsBelow(groups, bound - 1);
      }
    }
  }

  /** Conservation: when every group id is below `bound` and the registered
      points are exactly `0..n-1`, the listed sizes add up to `n` and there
      is one size per group. */
  lemma GroupSizesCover(r: Registry, bound: nat, n: nat)
    requires Valid(r)
    requires forall g :: g in r.groups ==> g < bound
    requires RegistersAll(r, n)
    ensures Sum(GroupSizes(r.groups, bound)) == n
    ensures |GroupSizes(r.groups, bound)| == |r.groups|
  {
    SumGroupSizes(r, bound);
    IndicesBelow(n);
    assert Members(r, bound) == Indices(n);
    CountGroupSizes(r.groups, bound);
    assert IdsBelow(r.groups, bound) == r.groups.Keys;
  }

  /** The ids of the groups of size `x`. */
  ghost function GroupsOfSize(groups: map<nat, set<nat>>, x: nat): set<nat> {
    set g | g in groups && |groups[g]| == x
  }

  ghost function IdsOfSizeBelow(groups: map<nat, set<nat>>, bound: nat, x: nat): set<nat> {
    set g | g in groups && g < bound && |groups[g]| == x
  }

  /** The size list holds each size as often as there are groups of that
      size with an id below `bound`. */
  lemma {:induction false} GroupSizesCount(groups: map<nat, set<nat>>, bound: nat, x: nat)
    ensures multiset(GroupSizes(groups, bound))[x] == |IdsOfSizeBelow(groups, bound, x)|
  {
    if bound > 0 {
      GroupSizesCount(groups, bound - 1, x);
      var h := SizesStep(groups, bound, x);
      IdsStep(groups, bound, x);
    } else {
      assert IdsOfSizeBelow(groups, 0, x) == {};
    }
  }

  /** Whether the group `bound - 1` exists and has size `x`, as 0 or 1. */
  function Hit(groups: map<nat, set<nat>>, bound: nat, x: nat): nat
    requires bound > 0
  {
    if bound - 1 in groups && |groups[bound - 1]| == x then 1 else 0
  }

  lemma SizesStep(groups: map<nat, set<nat>>, bound: nat, x: nat) returns (h: nat)
    requires bound > 0
    ensures h == Hit(groups, bound, x)
    ensures multiset(GroupSizes(groups, bound))[x] == multiset(GroupSizes(groups, bound - 1))[x] + h
  {
    h := Hit(groups, bound, x);
    var b := bound - 1;
    var last := if b in groups then [|groups[b]|] else [];
    assert GroupSizes(groups, bound) == GroupSizes(groups, b) + last;
    assert multiset(GroupSizes(groups, bound)) == multiset(GroupSizes(groups, b)) + multiset(last);
  }

  lemma IdsStep(groups: map<nat, set<nat>>, bound: nat, x: nat)
    requires bound > 0
    ensures |IdsOfSizeBelow(groups, bound, x)| == |IdsOfSizeBelow(groups, bound - 1, x)| + Hit(groups, bound, x)
  {
    var b := bound - 1;
    var below, now := IdsOfSizeBelow(groups, b, x), IdsOfSizeBelow(groups, bound, x);
    if b in groups && |groups[b]| == x {
      assert now == below + {b} && b !in below;
    } else {
      assert now == below;
    }
  }

  /** When every id is below `bound`, the size list is exactly the multiset
      of the group sizes. */
  lemma GroupSizesAreSizes(groups: map<nat, set<nat>>, bound: nat)
    requires forall g :: g in groups ==> g < bound
    ensures forall x :: multiset(GroupSizes(groups, bound))[x] == |GroupsOfSize(groups, x)|
  {
    forall x
      ensures multiset(GroupSizes(groups, bound))[x] == |GroupsOfSize(groups, x)|
    {
      GroupSizesCount(groups, bound, x);
      assert IdsOfSizeBelow(groups, bound, x) == GroupsOfSize(groups, x);
    }
  }

  /** `result` is the list of group sizes of `groups`, largest first: each
      size occurs as often as there are groups of that size. */
  ghost predicate ReportsSizes(groups: map<nat, set<nat>>, result: seq<nat>) {
    && NonIncreasing(result)
    && (forall x :: multiset(result)[x] == |GroupsOfSize(groups, x)|)
  }

  /** The sizes in the order of increasing group id, then sorted largest
      first. */
  method ReportSizes(r: Registry, bound: nat, n: nat) returns (result: seq<nat>)
    requires Valid(r) && RegistersAll(r, n)
    requires forall g :: g in r.groups ==> g < bound
    ensures ReportsSizes(r.groups, result)
    ensures Sum(result) == n && |result| == |r.groups|
  {
    var listed := GroupSizes(r.groups, bound);
    GroupSizesAreSizes(r.groups, bound);
    GroupSizesCover(r, bound, n);
    result := SortDesc(listed);
  }
}
