/**
 What one worker of `graph_multiprocessing` does with its slice of keys
 (`process_loop`): analyse the last two keys, send its state to the next
 process, analyse the middle keys, merge the state received from the
 previous process (every process but the main one), and finish with the
 first two keys. The analysis itself is left abstract: a run is the
 sequence of events the loop performs, and the state is the list of the
 process's copies of the caller's dictionaries.
 */
module Schedule {
  import opened Slicing
  import opened Fusion

  datatype Event<K> = Analyse(key: K) | Send | Receive

  /** The events of one `process_loop` call, and whether it stopped on an
      `IndexError`. */
  datatype Run<K> = Run(events: seq<Event<K>>, crashed: bool)

  function Analyses<K>(ks: seq<K>): (es: seq<Event<K>>)
    ensures |es| == |ks| && forall i :: 0 <= i < |ks| ==> es[i] == Analyse(ks[i])
  {
    seq(|ks|, i requires 0 <= i < |ks| => Analyse(ks[i]))
  }

  /** `process_loop(pipes, subkeys, ...)`, where `hasRecv` says whether
      `pipes[1]` is a pipe end rather than `None`. */
  function ProcessLoop<K>(subkeys: seq<K>, hasRecv: bool): Run<K> {
    match PyIndex(subkeys, -1)
    case None => Run([], true)
    case Some(last) =>
      match PyIndex(subkeys, -2)
      case None => Run([Analyse(last)], true)
      case Some(second) =>
        Run([Analyse(last), Analyse(second), Send]
            + Analyses(PySlice(subkeys, 2, -2))
            + (if hasRecv then [Receive] else [])
            + [Analyse(subkeys[0]), Analyse(subkeys[1])],
            false)
  }

  /** The keys analysed by a run, in order. */
  function Analysed<K>(es: seq<Event<K>>): seq<K> {
    if |es| == 0 then []
    else if es[0].Analyse? then [es[0].key] + Analysed(es[1..])
    else Analysed(es[1..])
  }

  lemma {:induction false} AnalysedAppend<K>(a: seq<Event<K>>, b: seq<Event<K>>)
    ensures Analysed(a + b) == Analysed(a) + Analysed(b)
    decreases |a|
  {
    if |a| == 0 {
      assert a + b == b;
    } else {
      assert (a + b)[0] == a[0] && (a + b)[1..] == a[1..] + b;
      AnalysedAppend(a[1..], b);
      if a[0].Analyse? {
        var x := [a[0].key];
        assert x + (Analysed(a[1..]) + Analysed(b)) == (x + Analysed(a[1..])) + Analysed(b);
      }
    }
  }

  lemma AnalysedOne<K>(e: Event<K>)
    ensures Analysed([e]) == if e.Analyse? then [e.key] else []
  {
    assert [e][1..] == [];
  }

  /** The events of a run that gets past both `IndexError`s, as blocks. */
  lemma LoopEvents<K>(s: seq<K>, hasRecv: bool)
    requires |s| >= 2
    ensures ProcessLoop(s, hasRecv).events ==
              [Analyse(s[|s| - 1])] + [Analyse(s[|s| - 2])] + [Send]
              + Analyses(PySlice(s, 2, -2))
              + (if hasRecv then [Receive] else [])
              + [Analyse(s[0])] + [Analyse(s[1])]
  {
  }

  lemma {:induction false} AnalysedAnalyses<K>(ks: seq<K>)
    ensures Analysed(Analyses(ks)) == ks
    decreases |ks|
  {
    if |ks| > 0 {
      assert Analyses(ks)[1..] == Analyses(ks[1..]);
      AnalysedAnalyses(ks[1..]);
      assert ks == [ks[0]] + ks[1..];
    }
  }

  /** `subkeys[2:-2]`: the keys between the first two and the last two,
      none when there are fewer than five. */
  lemma MiddleKeys<K>(s: seq<K>)
    requires |s| >= 2
    ensures |s| >= 4 ==> PySlice(s, 2, -2) == s[2..|s| - 2]
    ensures |s| < 4 ==> PySlice(s, 2, -2) == []
  {
    if |s| >= 4 {
      PySliceExact(s, 2, |s| - 2);
    } else {
      PySliceEmpty(s, 2, -2);
    }
  }

  /** The keys a non-crashing run analyses: the last two, the middle ones,
      then the first two. */
  lemma AnalysedKeys<K>(s: seq<K>, hasRecv: bool)
    requires |s| >= 2
    ensures Analysed(ProcessLoop(s, hasRecv).events) ==
              [s[|s| - 1]] + [s[|s| - 2]] + PySlice(s, 2, -2) + [s[0]] + [s[1]]
  {
    var e1, e2, e3: Event<K> := Analyse(s[|s| - 1]), Analyse(s[|s| - 2]), Send;
    var mid := Analyses(PySlice(s, 2, -2));
    var recv: seq<Event<K>> := if hasRecv then [Receive] else [];
    var e4, e5: Event<K> := Analyse(s[0]), Analyse(s[1]);
    LoopEvents(s, hasRecv);
    AnalysedAppend([e1] + [e2] + [e3] + mid + recv + [e4], [e5]);
    AnalysedAppend([e1] + [e2] + [e3] + mid + recv, [e4]);
    AnalysedAppend([e1] + [e2] + [e3] + mid, recv);
    AnalysedAppend([e1] + [e2] + [e3], mid);
    AnalysedAppend([e1] + [e2], [e3]);
    AnalysedAppend([e1], [e2]);
    AnalysedOne(e1);
    AnalysedOne(e2);
    AnalysedOne(e3);
    AnalysedOne(e4);
    AnalysedOne(e5);
    AnalysedAnalyses(PySlice(s, 2, -2));
    if hasRecv {
      AnalysedOne<K>(Receive);
    }
  }

  /** `process_loop` stops on an `IndexError` exactly when it is given
      fewer than two keys. */
  lemma CrashIff<K>(s: seq<K>, hasRecv: bool)
    ensures ProcessLoop(s, hasRecv).crashed <==> |s| < 2
    ensures |s| == 1 ==> Analysed(ProcessLoop(s, hasRecv).events) == [s[0]]
    ensures |s| == 0 ==> ProcessLoop(s, hasRecv).events == []
  {
    if |s| == 1 {
      assert ProcessLoop(s, hasRecv).events == [Analyse(s[0])];
      assert ProcessLoop(s, hasRecv).events[1..] == [];
    }
  }

  /** A process that does not crash analyses every one of its keys exactly
      once if and only if it has at least four of them; with two or three
      it analyses four keys, so some key twice. */
  lemma ExactlyOnceIff<K>(s: seq<K>, hasRecv: bool)
    requires |s| >= 2
    ensures multiset(Analysed(ProcessLoop(s, hasRecv).events)) == multiset(s) <==> |s| >= 4
    ensures |s| < 4 ==> |Analysed(ProcessLoop(s, hasRecv).events)| == 4 > |s|
  {
    AnalysedKeys(s, hasRecv);
    MiddleKeys(s);
    var a := Analysed(ProcessLoop(s, hasRecv).events);
    if |s| >= 4 {
      Rotation(s);
    } else {
      assert |multiset(a)| == |a| == 4;
      assert |multiset(s)| == |s|;
    }
  }

  /** Moving the last two keys in front of the others keeps the multiset. */
  lemma Rotation<K>(s: seq<K>)
    requires |s| >= 4
    ensures multiset([s[|s| - 1]] + [s[|s| - 2]] + s[2..|s| - 2] + [s[0]] + [s[1]]) == multiset(s)
  {
    var n := |s|;
    assert s == [s[0]] + [s[1]] + s[2..n - 2] + [s[n - 2]] + [s[n - 1]];
  }

  // Where the exchange with the neighbouring processes happens.

  /** The events of a non-crashing run: the state is sent right after the
      last two keys, and the only receive comes just before the first two
      keys; the main process (no receive end) receives nothing. */
  lemma ExchangePoints<K>(s: seq<K>, hasRecv: bool)
    requires |s| >= 2
    ensures var es := ProcessLoop(s, hasRecv).events;
      && |es| >= 5
      && es[0] == Analyse(s[|s| - 1]) && es[1] == Analyse(s[|s| - 2]) && es[2] == Send
      && (forall i :: 0 <= i < |es| && es[i] == Send ==> i == 2)
      && es[|es| - 2] == Analyse(s[0]) && es[|es| - 1] == Analyse(s[1])
      && (hasRecv ==> es[|es| - 3] == Receive)
      && (forall i :: 0 <= i < |es| && es[i] == Receive ==> hasRecv && i == |es| - 3)
  {
    var m := PySlice(s, 2, -2);
    var es := ProcessLoop(s, hasRecv).events;
    var recv: seq<Event<K>> := if hasRecv then [Receive] else [];
    assert es == [Analyse(s[|s| - 1]), Analyse(s[|s| - 2]), Send] + Analyses(m) + recv
                 + [Analyse(s[0]), Analyse(s[1])];
  }

  // The state a process holds: its copies of the caller's dictionaries.

  /** The copies of `dynamic_args` a process works on, in their order. */
  type State<A, V> = seq<map<A, V>>

  /** The state after the events `es`, from `init`: an analysis applies
      `analyse` (`analyse_function` with its static arguments), a send leaves
      the state as it is, and a receive updates each dictionary with its
      partner in `inbox`, as the `zip` and `update` of the receive do. */
  function StateAfter<K, A, V>(analyse: (K, State<A, V>) -> State<A, V>, init: State<A, V>,
                               es: seq<Event<K>>, inbox: State<A, V>): State<A, V>
    decreases |es|
  {
    if |es| == 0 then init
    else
      var st := StateAfter(analyse, init, es[..|es| - 1], inbox);
      match es[|es| - 1]
      case Analyse(k) => analyse(k, st)
      case Send => st
      case Receive => UpdateAll(st, inbox)
  }

  /** The state after analysing the keys `ks` one after the other, from
      `init`. */
  function AnalyseAll<K, A, V>(analyse: (K, State<A, V>) -> State<A, V>, init: State<A, V>,
                               ks: seq<K>): State<A, V>
    decreases |ks|
  {
    if |ks| == 0 then init
    else analyse(ks[|ks| - 1], AnalyseAll(analyse, init, ks[..|ks| - 1]))
  }

  /** Events without a receive leave the state of analysing the keys they
      name, in order: sends change nothing. */
  lemma {:induction false} NoReceiveState<K, A, V>(analyse: (K, State<A, V>) -> State<A, V>,
                                                   init: State<A, V>, es: seq<Event<K>>,
                                                   inbox: State<A, V>)
    requires forall i :: 0 <= i < |es| ==> es[i] != Receive
    ensures StateAfter(analyse, init, es, inbox) == AnalyseAll(analyse, init, Analysed(es))
    decreases |es|
  {
    if |es| > 0 {
      var n := |es| - 1;
      var front := es[..n];
      NoReceiveState(analyse, init, front, inbox);
      assert es == front + [es[n]];
      AnalysedAppend(front, [es[n]]);
      AnalysedOne(es[n]);
      if es[n].Analyse? {
        var ks := Analysed(front) + [es[n].key];
        assert ks[..|ks| - 1] == Analysed(front);
      } else {
        assert Analysed(es) == Analysed(front);
      }
    }
  }

  /** Analyses that keep every dictionary and every entry of each (they may
      change values and add entries, but remove nothing), one after the
      other, keep them too. */
  lemma {:induction false} AnalyseAllKeeps<K, A, V>(analyse: (K, State<A, V>) -> State<A, V>,
                                                    init: State<A, V>, ks: seq<K>)
    requires forall k, st: State<A, V> :: |analyse(k, st)| == |st|
    requires forall k, st: State<A, V>, i :: 0 <= i < |st| ==> st[i].Keys <= analyse(k, st)[i].Keys
    ensures |AnalyseAll(analyse, init, ks)| == |init|
    ensures forall i :: 0 <= i < |init| ==> init[i].Keys <= AnalyseAll(analyse, init, ks)[i].Keys
    decreases |ks|
  {
    if |ks| > 0 {
      AnalyseAllKeeps(analyse, init, ks[..|ks| - 1]);
    }
  }

  /** A receiver's own state `own` updated with a snapshot `snap`, both
      produced by analyses that keep every dictionary and every entry: each
      entry of the caller's dictionaries ends up with the snapshot's value. */
  lemma SnapshotWins<K, A, V>(analyse: (K, State<A, V>) -> State<A, V>, objs: State<A, V>,
                              ownKeys: seq<K>, snapKeys: seq<K>, own: State<A, V>, snap: State<A, V>)
    requires forall k, st: State<A, V> :: |analyse(k, st)| == |st|
    requires forall k, st: State<A, V>, i :: 0 <= i < |st| ==> st[i].Keys <= analyse(k, st)[i].Keys
    requires own == AnalyseAll(analyse, objs, ownKeys) && snap == AnalyseAll(analyse, objs, snapKeys)
    ensures |snap| == |objs| && |UpdateAll(own, snap)| == |objs|
    ensures forall i, x :: 0 <= i < |objs| && x in objs[i] ==>
              && x in snap[i]
              && x in UpdateAll(own, snap)[i]
              && UpdateAll(own, snap)[i][x] == snap[i][x]
  {
    AnalyseAllKeeps(analyse, objs, ownKeys);
    AnalyseAllKeeps(analyse, objs, snapKeys);
    CopiesOverwrite(objs, own, snap);
  }

  /** The state a process sends: its copies once it has analysed its last
      two keys. A process given fewer than two keys stops before sending,
      and nothing arrives. */
  function Sent<K, A, V>(analyse: (K, State<A, V>) -> State<A, V>, objs: State<A, V>,
                         s: seq<K>): State<A, V> {
    if |s| < 2 then [] else StateAfter(analyse, objs, ProcessLoop(s, true).events[..2], [])
  }

  /** The snapshot a process sends is the caller's dictionaries analysed
      with its last key and then its second-to-last key, whether or not the
      process has a receive end. */
  lemma SentLastTwo<K, A, V>(analyse: (K, State<A, V>) -> State<A, V>, objs: State<A, V>,
                             s: seq<K>, hasRecv: bool)
    requires |s| >= 2
    ensures ProcessLoop(s, hasRecv).events[..2] == ProcessLoop(s, true).events[..2]
    ensures Sent(analyse, objs, s) == AnalyseAll(analyse, objs, [s[|s| - 1], s[|s| - 2]])
  {
    var e1, e2: Event<K> := Analyse(s[|s| - 1]), Analyse(s[|s| - 2]);
    LoopEvents(s, true);
    LoopEvents(s, hasRecv);
    assert ProcessLoop(s, true).events[..2] == [e1] + [e2];
    assert ProcessLoop(s, hasRecv).events[..2] == [e1] + [e2];
    NoReceiveState(analyse, objs, [e1] + [e2], []);
    AnalysedAppend([e1], [e2]);
    AnalysedOne(e1);
    AnalysedOne(e2);
  }

  /** What a process does before its receive: analyse its last two keys,
      send, analyse the middle keys. */
  function Front<K>(s: seq<K>): seq<Event<K>>
    requires |s| >= 2
  {
    [Analyse(s[|s| - 1]), Analyse(s[|s| - 2]), Send] + Analyses(PySlice(s, 2, -2))
  }

  /** A run that gets past both `IndexError`s is its front, the receive of a
      process with a receive end, and the first two keys; the front analyses
      the last two keys and then the middle ones, and receives nothing. */
  lemma FrontEvents<K>(s: seq<K>, hasRecv: bool)
    requires |s| >= 2
    ensures var es := ProcessLoop(s, hasRecv).events;
      && |es| >= 5
      && es[..|es| - 2] == Front(s) + (if hasRecv then [Receive] else [])
      && es[|es| - 2] == Analyse(s[0]) && es[|es| - 1] == Analyse(s[1])
    ensures forall i :: 0 <= i < |Front(s)| ==> Front(s)[i] != Receive
    ensures Analysed(Front(s)) == [s[|s| - 1], s[|s| - 2]] + PySlice(s, 2, -2)
  {
    var n := |s|;
    var e1, e2, e3: Event<K> := Analyse(s[n - 1]), Analyse(s[n - 2]), Send;
    var m := PySlice(s, 2, -2);
    LoopEvents(s, hasRecv);
    assert Front(s) == [e1] + [e2] + [e3] + Analyses(m);
    AnalysedAppend([e1] + [e2] + [e3], Analyses(m));
    AnalysedAppend([e1] + [e2], [e3]);
    AnalysedAppend([e1], [e2]);
    AnalysedOne(e1);
    AnalysedOne(e2);
    AnalysedOne(e3);
    AnalysedAnalyses(m);
  }

  /** The state of a process that gets past both `IndexError`s. Its own
      analyses of its last two keys and of the middle ones give `own`. A
      receiving process then updates `own` with what arrived, the arriving
      entries winning. The first two keys are analysed last, from that
      state. */
  lemma LoopState<K, A, V>(analyse: (K, State<A, V>) -> State<A, V>, objs: State<A, V>,
                           s: seq<K>, hasRecv: bool, inbox: State<A, V>)
    requires |s| >= 2
    ensures var es := ProcessLoop(s, hasRecv).events;
      var own := AnalyseAll(analyse, objs, [s[|s| - 1], s[|s| - 2]] + PySlice(s, 2, -2));
      var merged := if hasRecv then UpdateAll(own, inbox) else own;
      && |es| >= 5
      && StateAfter(analyse, objs, es[..|es| - 2], inbox) == merged
      && StateAfter(analyse, objs, es, inbox) == AnalyseAll(analyse, merged, [s[0], s[1]])
  {
    var es := ProcessLoop(s, hasRecv).events;
    FrontEvents(s, hasRecv);
    var front := Front(s);
    NoReceiveState(analyse, objs, front, inbox);
    var pre := es[..|es| - 2];
    if hasRecv {
      assert pre[..|pre| - 1] == front;
    } else {
      assert pre == front;
    }
    Finish(analyse, objs, es, inbox, s[0], s[1]);
  }

  /** A receiving process with at least four keys: when it reaches its first
      two keys it holds its own analyses of its last two keys and of
      `s[2..|s| - 2]`, updated with what arrived. */
  lemma ReceiverState<K, A, V>(analyse: (K, State<A, V>) -> State<A, V>, objs: State<A, V>,
                               s: seq<K>, inbox: State<A, V>)
    requires |s| >= 4
    ensures var es := ProcessLoop(s, true).events;
      && |es| >= 5
      && es[|es| - 2] == Analyse(s[0]) && es[|es| - 1] == Analyse(s[1])
      && StateAfter(analyse, objs, es[..|es| - 2], inbox) ==
           UpdateAll(AnalyseAll(analyse, objs, [s[|s| - 1], s[|s| - 2]] + s[2..|s| - 2]), inbox)
  {
    FrontEvents(s, true);
    LoopState(analyse, objs, s, true, inbox);
    MiddleKeys(s);
  }

  /** Analysing two keys at the end of a run. */
  lemma Finish<K, A, V>(analyse: (K, State<A, V>) -> State<A, V>, objs: State<A, V>,
                        es: seq<Event<K>>, inbox: State<A, V>, a: K, b: K)
    requires |es| >= 2 && es[|es| - 2] == Analyse(a) && es[|es| - 1] == Analyse(b)
    ensures StateAfter(analyse, objs, es, inbox) ==
              AnalyseAll(analyse, StateAfter(analyse, objs, es[..|es| - 2], inbox), [a, b])
  {
    var pre := StateAfter(analyse, objs, es[..|es| - 2], inbox);
    var mid := es[..|es| - 1];
    assert mid[..|mid| - 1] == es[..|es| - 2] && mid[|mid| - 1] == Analyse(a);
    assert StateAfter(analyse, objs, mid, inbox) == analyse(a, pre);
    assert [a, b][..1] == [a] && [a][..0] == [];
    assert AnalyseAll(analyse, pre, [a]) == analyse(a, pre);
  }

  // The pipes, numbered by creation: pipe 0 is created before the loop,
  // pipe `p` in the loop iteration for process `p`.

  /** The pipe ends a process is given: the send end of one pipe and the
      receive end of another, or none. */
  datatype Ends = Ends(send: nat, recv: Option<nat>)

  /** The wiring loop of `graph_multiprocessing`: process `p` gets the send
      end of the pipe created for it and the receive end left over from the
      previous iteration; the main process gets the first pipe's send end
      and no receive end. Indexed by process. */
  method WirePipes(count: nat) returns (ends: seq<Ends>)
    ensures |ends| == if count == 0 then 1 else count
    ensures ends[0] == Ends(0, None)
    ensures forall p :: 0 < p < |ends| ==> ends[p].send == p
    ensures forall p, q :: 0 <= p < |ends| && 0 <= q < |ends| ==>
              (ends[q].recv == Some(ends[p].send) <==> q == p + 1)
  {
    var pipeRecv := 0;
    var started: seq<Ends> := [];
    var p := 1;
    while p < count
      invariant 1 <= p && (p <= count || p == 1)
      invariant |started| == p - 1 && pipeRecv == p - 1
      invariant forall q :: 0 <= q < |started| ==> started[q] == Ends(q + 1, Some(q))
    {
      var pipeSend, pipeNextRecv := p, p;
      started := started + [Ends(pipeSend, Some(pipeRecv))];
      pipeRecv := pipeNextRecv;
      p := p + 1;
    }
    ends := [Ends(0, None)] + started;
    forall p, q | 0 <= p < |ends| && 0 <= q < |ends|
      ensures ends[q].recv == Some(ends[p].send) <==> q == p + 1
    {
      if q > 0 {
        assert ends[q] == started[q - 1];
      }
      if p > 0 {
        assert ends[p] == started[p - 1];
      }
    }
  }
}
