/**
 `graph_multiprocessing` as a whole, with the processes run one after the
 other: process `p` runs `process_loop` on the slice the code hands it,
 with a receive end exactly when it is not the main process. What matters
 for the clustering is that every key is analysed once and that each
 process analyses its first two keys only after it has updated its
 dictionaries with the snapshot the previous process sent once it had
 analysed its last two keys, so that neighbouring buckets on either side of
 a slice boundary meet. The copies each process returns are then fused
 into the caller's dictionaries.
 */
module Pipeline {
  import opened Slicing
  import opened Schedule
  import opened Fusion

  /** The run of process `p`. */
  function RunOf<K>(keys: seq<K>, sh: Sharing, p: nat): Run<K> {
    ProcessLoop(CodeSlice(keys, sh, p), p > 0)
  }

  /** The runs of processes `0..count-1`, in process order. */
  function Runs<K>(keys: seq<K>, sh: Sharing): (rs: seq<Run<K>>)
    ensures |rs| == sh.count
    ensures forall p :: 0 <= p < |rs| ==> rs[p] == RunOf(keys, sh, p)
  {
    seq(sh.count, p requires 0 <= p < sh.count => RunOf(keys, sh, p))
  }

  /** The slices of processes `0..count-1`, as the code cuts them. */
  function Slices<K>(keys: seq<K>, sh: Sharing): (ss: seq<seq<K>>)
    ensures |ss| == sh.count
    ensures forall p :: 0 <= p < |ss| ==> ss[p] == CodeSlice(keys, sh, p)
  {
    seq(sh.count, p requires 0 <= p < sh.count => CodeSlice(keys, sh, p))
  }

  /** The keys analysed by the runs `rs`, run after run. */
  function AllAnalysed<K>(rs: seq<Run<K>>): seq<K> {
    if |rs| == 0 then [] else AllAnalysed(rs[..|rs| - 1]) + Analysed(rs[|rs| - 1].events)
  }

  function Flatten<K>(ss: seq<seq<K>>): seq<K> {
    if |ss| == 0 then [] else Flatten(ss[..|ss| - 1]) + ss[|ss| - 1]
  }

  /** No process stops on an `IndexError`. */
  predicate NoCrash<K>(keys: seq<K>, sh: Sharing) {
    forall p: nat :: p < sh.count ==> !RunOf(keys, sh, p).crashed
  }

  /** With slices of at least four keys, a process analyses the keys of its
      slice, each once, and does not crash. */
  lemma ProcessExact<K>(keys: seq<K>, sh: Sharing, p: nat)
    requires EndsAt(sh, |keys|) && p < sh.count && sh.effectif >= 4
    ensures !RunOf(keys, sh, p).crashed
    ensures SameKeys(Analysed(RunOf(keys, sh, p).events), CodeSlice(keys, sh, p))
  {
    NoClamping(keys, sh, p);
    CrashIff(CodeSlice(keys, sh, p), p > 0);
    ExactlyOnceIff(CodeSlice(keys, sh, p), p > 0);
  }

  /** Runs that each analyse the keys of their slice, each once, analyse
      between them the keys of all the slices, each once. */
  lemma {:induction false} AllAnalysedTiles<K>(rs: seq<Run<K>>, ss: seq<seq<K>>)
    requires |rs| == |ss|
    requires forall p :: 0 <= p < |rs| ==> SameKeys(Analysed(rs[p].events), ss[p])
    ensures SameKeys(AllAnalysed(rs), Flatten(ss))
    decreases |rs|
  {
    if |rs| > 0 {
      var n := |rs| - 1;
      AllAnalysedTiles(rs[..n], ss[..n]);
      assert multiset(AllAnalysed(rs[..n]) + Analysed(rs[n].events))
          == multiset(AllAnalysed(rs[..n])) + multiset(Analysed(rs[n].events));
    }
  }

  /** Flattening the code's slices gives the slices of the tiling. */
  lemma {:induction false} FlattenSlices<K>(keys: seq<K>, sh: Sharing, p: nat)
    requires EndsAt(sh, |keys|) && p <= sh.count
    ensures Flatten(Slices(keys, sh)[..p]) == Concat(keys, sh, p)
  {
    if p > 0 {
      var ss := Slices(keys, sh);
      assert ss[..p][..p - 1] == ss[..p - 1];
      FlattenSlices(keys, sh, p - 1);
      NoClamping(keys, sh, p - 1);
    }
  }

  /** `a` and `b` hold the same keys, each as many times. */
  ghost predicate SameKeys<K>(a: seq<K>, b: seq<K>) {
    multiset(a) == multiset(b)
  }

  /** Every key is analysed exactly once, by processes that all run to the
      end, if and only if there are at least four keys. With fewer there is
      a single process, which stops on an `IndexError` (under two keys) or
      analyses four keys out of two or three. */
  lemma EveryKeyOnceIff<K>(keys: seq<K>, cpus: nat)
    ensures var sh := Share(|keys|, cpus);
      NoCrash(keys, sh) && SameKeys(AllAnalysed(Runs(keys, sh)), keys) <==> |keys| >= 4
  {
    var sh := Share(|keys|, cpus);
    SlicesTile(keys, cpus);
    if |keys| >= 4 {
      ShareAtLeastFour(|keys|, cpus);
      AllTile(keys, sh);
      forall p: nat | p < sh.count
        ensures !RunOf(keys, sh, p).crashed
      {
        ProcessExact(keys, sh, p);
      }
    } else {
      SingleProcess(keys, cpus);
      var s := CodeSlice(keys, sh, 0);
      CrashIff(s, false);
      if |keys| >= 2 {
        ExactlyOnceIff(s, false);
        var rs := Runs(keys, sh);
        assert rs[..0] == [];
        assert AllAnalysed(rs) == [] + Analysed(RunOf(keys, sh, 0).events);
      }
    }
  }

  lemma AllTile<K>(keys: seq<K>, sh: Sharing)
    requires EndsAt(sh, |keys|) && sh.effectif >= 4 && Concat(keys, sh, sh.count) == keys
    ensures SameKeys(AllAnalysed(Runs(keys, sh)), keys)
  {
    var rs, ss := Runs(keys, sh), Slices(keys, sh);
    forall p | 0 <= p < |rs|
      ensures SameKeys(Analysed(rs[p].events), ss[p])
    {
      ProcessExact(keys, sh, p);
    }
    AllAnalysedTiles(rs, ss);
    FlattenSlices(keys, sh, sh.count);
    assert ss[..sh.count] == ss;
  }

  /** Under four keys there is one process, and it is handed every key. */
  lemma SingleProcess<K>(keys: seq<K>, cpus: nat)
    requires |keys| < 4
    ensures Share(|keys|, cpus).count == 1
    ensures CodeSlice(keys, Share(|keys|, cpus), 0) == keys
  {
    var sh := Share(|keys|, cpus);
    assert sh == Sharing(1, |keys|, 0);
    PySliceExact(keys, 0, |keys|);
  }

  /** The hand-off at a slice boundary. Process `p > 0`, whose slice runs
      from key `s` to key `e`, is sent the caller's dictionaries analysed
      with the last two keys `keys[s - 1]` and `keys[s - 2]` of the previous
      process's slice `prev`. When it reaches its first two keys `keys[s]`
      and `keys[s + 1]`, it holds its own analyses of its last two keys and
      of the middle ones, updated with that snapshot: every entry the
      snapshot carries takes the snapshot's value (`Fusion.UpdateAll`). */
  lemma HandOff<K, A, V>(keys: seq<K>, cpus: nat, sh: Sharing, p: nat, prev: seq<K>, s: nat, e: nat,
                         analyse: (K, State<A, V>) -> State<A, V>, objs: State<A, V>)
    requires |keys| >= 4 && sh == Share(|keys|, cpus) && 0 < p < sh.count
    requires prev == CodeSlice(keys, sh, p - 1) && s == SliceStart(sh, p) && e == SliceStart(sh, p + 1)
    ensures 2 <= s && s + 4 <= e <= |keys| && |RunOf(keys, sh, p).events| >= 5
    ensures RunOf(keys, sh, p).events[|RunOf(keys, sh, p).events| - 2] == Analyse(keys[s])
    ensures RunOf(keys, sh, p).events[|RunOf(keys, sh, p).events| - 1] == Analyse(keys[s + 1])
    ensures Sent(analyse, objs, prev) == AnalyseAll(analyse, objs, [keys[s - 1], keys[s - 2]])
    ensures StateAfter(analyse, objs, RunOf(keys, sh, p).events[..|RunOf(keys, sh, p).events| - 2],
                       Sent(analyse, objs, prev)) ==
              UpdateAll(AnalyseAll(analyse, objs, [keys[e - 1], keys[e - 2]] + keys[s + 2..e - 2]),
                        Sent(analyse, objs, prev))
  {
    ShareSplits(|keys|, cpus);
    SliceStartLast(sh, |keys|);
    ShareAtLeastFour(|keys|, cpus);
    HandOffWithin(keys, sh, p, prev, s, e, analyse, objs);
  }

  /** The hand-off for any sharing whose slices end at the last key and hold
      at least four keys each, as the code's sharing does. */
  lemma HandOffWithin<K, A, V>(keys: seq<K>, sh: Sharing, p: nat, prev: seq<K>, s: nat, e: nat,
                               analyse: (K, State<A, V>) -> State<A, V>, objs: State<A, V>)
    requires EndsAt(sh, |keys|) && sh.effectif >= 4 && 0 < p < sh.count
    requires prev == CodeSlice(keys, sh, p - 1) && s == SliceStart(sh, p) && e == SliceStart(sh, p + 1)
    ensures 2 <= s && s + 4 <= e <= |keys| && |RunOf(keys, sh, p).events| >= 5
    ensures RunOf(keys, sh, p).events[|RunOf(keys, sh, p).events| - 2] == Analyse(keys[s])
    ensures RunOf(keys, sh, p).events[|RunOf(keys, sh, p).events| - 1] == Analyse(keys[s + 1])
    ensures Sent(analyse, objs, prev) == AnalyseAll(analyse, objs, [keys[s - 1], keys[s - 2]])
    ensures StateAfter(analyse, objs, RunOf(keys, sh, p).events[..|RunOf(keys, sh, p).events| - 2],
                       Sent(analyse, objs, prev)) ==
              UpdateAll(AnalyseAll(analyse, objs, [keys[e - 1], keys[e - 2]] + keys[s + 2..e - 2]),
                        Sent(analyse, objs, prev))
  {
    var s0 := SliceStart(sh, p - 1);
    Neighbours(keys, sh, p, s0, s, e);
    var cur := CodeSlice(keys, sh, p);
    assert RunOf(keys, sh, p).events == ProcessLoop(cur, true).events;
    SeamEvents(keys, prev, cur, s0, s, e, RunOf(keys, sh, p).events, analyse, objs);
  }

  /** `Seam`, for the events `es` of the run on the later slice. */
  lemma SeamEvents<K, A, V>(keys: seq<K>, prev: seq<K>, cur: seq<K>, s0: nat, s: nat, e: nat,
                            es: seq<Event<K>>, analyse: (K, State<A, V>) -> State<A, V>,
                            objs: State<A, V>)
    requires s0 + 4 <= s && s + 4 <= e <= |keys|
    requires prev == keys[s0..s] && cur == keys[s..e] && es == ProcessLoop(cur, true).events
    ensures |es| >= 5
    ensures es[|es| - 2] == Analyse(keys[s]) && es[|es| - 1] == Analyse(keys[s + 1])
    ensures Sent(analyse, objs, prev) == AnalyseAll(analyse, objs, [keys[s - 1], keys[s - 2]])
    ensures StateAfter(analyse, objs, es[..|es| - 2], Sent(analyse, objs, prev)) ==
              UpdateAll(AnalyseAll(analyse, objs, [keys[e - 1], keys[e - 2]] + keys[s + 2..e - 2]),
                        Sent(analyse, objs, prev))
  {
    Seam(keys, prev, cur, s0, s, e, analyse, objs);
  }

  /** When the analysis removes no dictionary and no entry, the snapshot a
      worker receives carries every entry of the caller's dictionaries. So
      when the worker reaches its first two keys, each of those entries
      holds the value the previous process computed: what the worker's own
      analyses wrote there is overwritten by the receive's `update`. */
  lemma OwnEntriesOverwritten<K, A, V>(keys: seq<K>, cpus: nat, sh: Sharing, p: nat, prev: seq<K>,
                                       analyse: (K, State<A, V>) -> State<A, V>, objs: State<A, V>)
    requires |keys| >= 4 && sh == Share(|keys|, cpus) && 0 < p < sh.count
    requires prev == CodeSlice(keys, sh, p - 1)
    requires forall k, st: State<A, V> :: |analyse(k, st)| == |st|
    requires forall k, st: State<A, V>, i :: 0 <= i < |st| ==> st[i].Keys <= analyse(k, st)[i].Keys
    ensures var es := RunOf(keys, sh, p).events;
      && |es| >= 5
      && |Sent(analyse, objs, prev)| == |objs|
      && |StateAfter(analyse, objs, es[..|es| - 2], Sent(analyse, objs, prev))| == |objs|
      && forall i, x :: 0 <= i < |objs| && x in objs[i] ==>
           && x in Sent(analyse, objs, prev)[i]
           && x in StateAfter(analyse, objs, es[..|es| - 2], Sent(analyse, objs, prev))[i]
           && StateAfter(analyse, objs, es[..|es| - 2], Sent(analyse, objs, prev))[i][x]
                == Sent(analyse, objs, prev)[i][x]
  {
    ShareSplits(|keys|, cpus);
    SliceStartLast(sh, |keys|);
    ShareAtLeastFour(|keys|, cpus);
    OwnEntriesWithin(keys, sh, p, prev, analyse, objs);
  }

  /** `OwnEntriesOverwritten` for any sharing whose slices end at the last
      key and hold at least four keys each. */
  lemma OwnEntriesWithin<K, A, V>(keys: seq<K>, sh: Sharing, p: nat, prev: seq<K>,
                                  analyse: (K, State<A, V>) -> State<A, V>, objs: State<A, V>)
    requires EndsAt(sh, |keys|) && sh.effectif >= 4 && 0 < p < sh.count
    requires prev == CodeSlice(keys, sh, p - 1)
    requires forall k, st: State<A, V> :: |analyse(k, st)| == |st|
    requires forall k, st: State<A, V>, i :: 0 <= i < |st| ==> st[i].Keys <= analyse(k, st)[i].Keys
    ensures var es := RunOf(keys, sh, p).events;
      && |es| >= 5
      && |Sent(analyse, objs, prev)| == |objs|
      && |StateAfter(analyse, objs, es[..|es| - 2], Sent(analyse, objs, prev))| == |objs|
      && forall i, x :: 0 <= i < |objs| && x in objs[i] ==>
           && x in Sent(analyse, objs, prev)[i]
           && x in StateAfter(analyse, objs, es[..|es| - 2], Sent(analyse, objs, prev))[i]
           && StateAfter(analyse, objs, es[..|es| - 2], Sent(analyse, objs, prev))[i][x]
                == Sent(analyse, objs, prev)[i][x]
  {
    var s0, s, e := SliceStart(sh, p - 1), SliceStart(sh, p), SliceStart(sh, p + 1);
    Neighbours(keys, sh, p, s0, s, e);
    var cur := CodeSlice(keys, sh, p);
    assert RunOf(keys, sh, p).events == ProcessLoop(cur, true).events;
    OverwriteEvents(keys, prev, cur, s0, s, e, RunOf(keys, sh, p).events, analyse, objs);
  }

  /** `OwnEntriesOverwritten` for the events `es` of the run on the later of
      two neighbouring slices. */
  lemma OverwriteEvents<K, A, V>(keys: seq<K>, prev: seq<K>, cur: seq<K>, s0: nat, s: nat, e: nat,
                                 es: seq<Event<K>>, analyse: (K, State<A, V>) -> State<A, V>,
                                 objs: State<A, V>)
    requires s0 + 4 <= s && s + 4 <= e <= |keys|
    requires prev == keys[s0..s] && cur == keys[s..e] && es == ProcessLoop(cur, true).events
    requires forall k, st: State<A, V> :: |analyse(k, st)| == |st|
    requires forall k, st: State<A, V>, i :: 0 <= i < |st| ==> st[i].Keys <= analyse(k, st)[i].Keys
    ensures |es| >= 5
    ensures |Sent(analyse, objs, prev)| == |objs|
    ensures |StateAfter(analyse, objs, es[..|es| - 2], Sent(analyse, objs, prev))| == |objs|
    ensures forall i, x :: 0 <= i < |objs| && x in objs[i] ==>
              && x in Sent(analyse, objs, prev)[i]
              && x in StateAfter(analyse, objs, es[..|es| - 2], Sent(analyse, objs, prev))[i]
              && StateAfter(analyse, objs, es[..|es| - 2], Sent(analyse, objs, prev))[i][x]
                   == Sent(analyse, objs, prev)[i][x]
  {
    SeamEvents(keys, prev, cur, s0, s, e, es, analyse, objs);
    var snapKeys, ownKeys := [keys[s - 1], keys[s - 2]], [keys[e - 1], keys[e - 2]] + keys[s + 2..e - 2];
    SnapshotWins(analyse, objs, ownKeys, snapKeys,
                 AnalyseAll(analyse, objs, ownKeys), AnalyseAll(analyse, objs, snapKeys));
  }

  /** The slices of processes `p - 1` and `p` are neighbouring windows of
      at least four keys each. */
  lemma Neighbours<K>(keys: seq<K>, sh: Sharing, p: nat, s0: nat, s: nat, e: nat)
    requires EndsAt(sh, |keys|) && sh.effectif >= 4 && 0 < p < sh.count
    requires s0 == SliceStart(sh, p - 1) && s == SliceStart(sh, p) && e == SliceStart(sh, p + 1)
    ensures s0 + 4 <= s && s + 4 <= e <= |keys|
    ensures CodeSlice(keys, sh, p - 1) == keys[s0..s] && CodeSlice(keys, sh, p) == keys[s..e]
  {
    Window(keys, sh, p - 1, s0, s);
    Window(keys, sh, p, s, e);
  }

  /** The code hands process `p` the keys from its start to the next
      process's start. */
  lemma Window<K>(keys: seq<K>, sh: Sharing, p: nat, a: nat, b: nat)
    requires EndsAt(sh, |keys|) && p < sh.count
    requires a == SliceStart(sh, p) && b == SliceStart(sh, p + 1)
    ensures a + sh.effectif <= b <= |keys| && CodeSlice(keys, sh, p) == keys[a..b]
  {
    SliceStartNext(sh, p);
    SliceFits(sh, |keys|, p);
    NoClamping(keys, sh, p);
  }

  /** The hand-off between two neighbouring slices `keys[s0..s]` and
      `keys[s..e]` of at least four keys each. */
  lemma Seam<K, A, V>(keys: seq<K>, prev: seq<K>, cur: seq<K>, s0: nat, s: nat, e: nat,
                      analyse: (K, State<A, V>) -> State<A, V>, objs: State<A, V>)
    requires s0 + 4 <= s && s + 4 <= e <= |keys|
    requires prev == keys[s0..s] && cur == keys[s..e]
    ensures var es := ProcessLoop(cur, true).events;
      && |es| >= 5
      && es[|es| - 2] == Analyse(keys[s]) && es[|es| - 1] == Analyse(keys[s + 1])
      && Sent(analyse, objs, prev) == AnalyseAll(analyse, objs, [keys[s - 1], keys[s - 2]])
      && StateAfter(analyse, objs, es[..|es| - 2], Sent(analyse, objs, prev)) ==
           UpdateAll(AnalyseAll(analyse, objs, [keys[e - 1], keys[e - 2]] + keys[s + 2..e - 2]),
                     Sent(analyse, objs, prev))
  {
    SentLastTwo(analyse, objs, prev, true);
    ReceiverState(analyse, objs, cur, Sent(analyse, objs, prev));
    SeamKeys(keys, prev, cur, s0, s, e);
  }

  /** The keys of two neighbouring slices, by their place in `keys`. */
  lemma SeamKeys<K>(keys: seq<K>, prev: seq<K>, cur: seq<K>, s0: nat, s: nat, e: nat)
    requires s0 + 4 <= s && s + 4 <= e <= |keys|
    requires prev == keys[s0..s] && cur == keys[s..e]
    ensures |prev| >= 4 && |cur| >= 4
    ensures prev[|prev| - 1] == keys[s - 1] && prev[|prev| - 2] == keys[s - 2]
    ensures cur[0] == keys[s] && cur[1] == keys[s + 1]
    ensures [cur[|cur| - 1], cur[|cur| - 2]] + cur[2..|cur| - 2] ==
            [keys[e - 1], keys[e - 2]] + keys[s + 2..e - 2]
  {
    assert forall i :: 0 <= i < |cur| ==> cur[i] == keys[s + i];
    assert cur[2..|cur| - 2] == keys[s + 2..e - 2];
  }

  /** The main process receives nothing: its run has no receive, and every
      other process receives exactly once. */
  lemma OnlyWorkersReceive<K>(keys: seq<K>, cpus: nat, p: nat)
    requires |keys| >= 4 && p < Share(|keys|, cpus).count
    ensures var es := RunOf(keys, Share(|keys|, cpus), p).events;
      |es| >= 5
      && (forall i :: 0 <= i < |es| && es[i] == Receive ==> p > 0 && i == |es| - 3)
      && (p > 0 ==> es[|es| - 3] == Receive)
  {
    var sh := Share(|keys|, cpus);
    SlicesTile(keys, cpus);
    ShareAtLeastFour(|keys|, cpus);
    NoClamping(keys, sh, p);
    ExchangePoints(CodeSlice(keys, sh, p), p > 0);
  }

  // The whole of `graph_multiprocessing`: the runs, then the fusion.

  /** The copies process `p` stores in `returns`: its state at the end of
      its loop, the previous process's snapshot arriving at its receive. */
  function FinalOf<K, A, V>(keys: seq<K>, sh: Sharing, p: nat,
                            analyse: (K, State<A, V>) -> State<A, V>, objs: State<A, V>): State<A, V> {
    StateAfter(analyse, objs, RunOf(keys, sh, p).events,
               if p == 0 then [] else Sent(analyse, objs, CodeSlice(keys, sh, p - 1)))
  }

  /** The lists `returns.values()` yields, process `order[j]`'s in place `j`. */
  function Finals<K, A, V>(keys: seq<K>, sh: Sharing, order: seq<nat>,
                           analyse: (K, State<A, V>) -> State<A, V>, objs: State<A, V>): (fs: seq<State<A, V>>)
    ensures |fs| == |order|
    ensures forall j :: 0 <= j < |order| ==> fs[j] == FinalOf(keys, sh, order[j], analyse, objs)
  {
    seq(|order|, j requires 0 <= j < |order| => FinalOf(keys, sh, order[j], analyse, objs))
  }

  /** `returns` holds one entry per process, stored under its id; `order`
      lists the ids in the order its values are yielded. */
  predicate IsOrder(order: seq<nat>, count: nat) {
    && |order| == count
    && (forall j :: 0 <= j < |order| ==> order[j] < count)
    && (forall j, j' :: 0 <= j < j' < |order| ==> order[j] != order[j'])
  }

  /** The main process stops on an `IndexError` exactly when there are
      fewer than two keys. */
  lemma MainCrashIff<K>(keys: seq<K>, cpus: nat)
    ensures RunOf(keys, Share(|keys|, cpus), 0).crashed <==> |keys| < 2
  {
    var sh := Share(|keys|, cpus);
    CrashIff(CodeSlice(keys, sh, 0), false);
    if |keys| >= 4 {
      SlicesTile(keys, cpus);
      ShareAtLeastFour(|keys|, cpus);
      Window(keys, sh, 0, SliceStart(sh, 0), SliceStart(sh, 1));
    } else {
      SingleProcess(keys, cpus);
    }
  }

  /** `graph_multiprocessing(keys, analyse_function, static_args, objs)`,
      `objs` being `dynamic_args`: the caller's dictionaries after the
      fusion of every process's copies, or `None` when the main process
      stops on an `IndexError`, which leaves the function before the
      fusion. */
  function GraphMultiprocessing<K, A, V>(keys: seq<K>, cpus: nat,
                                         analyse: (K, State<A, V>) -> State<A, V>,
                                         objs: State<A, V>, order: seq<nat>): (r: Option<State<A, V>>)
    requires IsOrder(order, Share(|keys|, cpus).count)
    ensures r.None? <==> |keys| < 2
    ensures r.Some? ==> |r.value| == |objs| && forall i :: 0 <= i < |objs| ==> objs[i].Keys <= r.value[i].Keys
  {
    var sh := Share(|keys|, cpus);
    MainCrashIff(keys, cpus);
    if RunOf(keys, sh, 0).crashed then None
    else
      var fs := Finals(keys, sh, order, analyse, objs);
      FuseSpec(objs, fs);
      Some(Fuse(objs, fs))
  }

  /** After `graph_multiprocessing`, dictionary `i` holds its own entries
      and every entry some process's final copy of it holds. An entry that
      final copies hold takes the value of the last process, in the order
      `returns` yields them, whose copy holds it; any other entry keeps the
      caller's value. */
  lemma FusedEntries<K, A, V>(keys: seq<K>, cpus: nat, analyse: (K, State<A, V>) -> State<A, V>,
                              objs: State<A, V>, order: seq<nat>)
    requires IsOrder(order, Share(|keys|, cpus).count) && |keys| >= 2
    ensures var r := GraphMultiprocessing(keys, cpus, analyse, objs, order).value;
      var fs := Finals(keys, Share(|keys|, cpus), order, analyse, objs);
      && (forall i, x :: 0 <= i < |objs| ==>
            (x in r[i] <==> x in objs[i] || exists j :: Holds(fs, j, i, x)))
      && (forall i, x, j :: (0 <= i < |objs| && Holds(fs, j, i, x) && LastHolder(fs, j, i, x)) ==>
            r[i][x] == fs[j][i][x])
      && (forall i, x :: (0 <= i < |objs| && x in objs[i] && (forall j :: !Holds(fs, j, i, x))) ==>
            r[i][x] == objs[i][x])
  {
    FuseSpec(objs, Finals(keys, Share(|keys|, cpus), order, analyse, objs));
  }
}
