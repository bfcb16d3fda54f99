/**
  The code of consume and executeUnit run by a single thread, tied to the step
  machine: consume is an uninterrupted sequence of its steps, and a single
  worker drains the whole graph and ends with the serial world.
 */
module Uncontended {
  import opened Prelude
  import opened Conflicts
  import opened TxDag
  import opened Scheduler
  import opened SchedulerInvariant
  import opened SchedulerProgress
  import opened Serializability
  import opened ParallelExecution

  lemma {:induction false} UsefulJoin(a: seq<Action>, b: seq<Action>)
    ensures UsefulSteps(a + b) == UsefulSteps(a) + UsefulSteps(b)
  {
    if a == [] {
      assert a + b == b;
    } else {
      assert (a + b)[1..] == a[1..] + b;
      UsefulJoin(a[1..], b);
    }
  }

  /** Worker w stands in the out-edge loop with nothing left to push. */
  predicate InLoop<S, R>(cfg: Config<S, R>, f: State<S, R>, w: nat) {
    && |f.deg| == |cfg.out| && w < |f.workers|
    && var pc := f.workers[w].pc;
       pc.Consuming? && pc.push.None? && pc.id < |cfg.out| && pc.k <= |cfg.out[pc.id]|
  }

  function EdgesLeft<S, R>(cfg: Config<S, R>, f: State<S, R>, w: nat): seq<nat>
    requires InLoop(cfg, f, w)
  {
    cfg.out[f.workers[w].pc.id][f.workers[w].pc.k..]
  }

  /** The state consume leaves when no other worker moves. */
  ghost function Consumed<S, R>(cfg: Config<S, R>, f: State<S, R>, w: nat): State<S, R>
    requires InLoop(cfg, f, w) && forall i :: 0 <= i < |EdgesLeft(cfg, f, w)| ==> EdgesLeft(cfg, f, w)[i] < |f.deg|
  {
    var pc := f.workers[w].pc;
    var (deg, queue, next) := ConsumeEdges(f.deg, f.queue, pc.next, EdgesLeft(cfg, f, w));
    Goto(f, w, Consuming(pc.id, |cfg.out[pc.id]|, next, None)).(deg := deg, queue := queue)
  }

  lemma EdgesInRange<S, R>(cfg: Config<S, R>, f: State<S, R>, w: nat)
    requires InLoop(cfg, f, w) && cfg.Valid()
    ensures forall i :: 0 <= i < |EdgesLeft(cfg, f, w)| ==> EdgesLeft(cfg, f, w)[i] < |f.deg|
  {
    var pc := f.workers[w].pc;
    forall i | 0 <= i < |EdgesLeft(cfg, f, w)|
      ensures EdgesLeft(cfg, f, w)[i] < |f.deg|
    {
      assert EdgesLeft(cfg, f, w)[i] in cfg.out[pc.id];
    }
  }

  /** One turn of the loop: a FetchSub, and a Push if the successor is not the first one released. */
  lemma OneTurn<S, R>(cfg: Config<S, R>, f: State<S, R>, w: nat) returns (run: seq<Action>)
    requires InLoop(cfg, f, w) && cfg.Valid() && EdgesLeft(cfg, f, w) != []
    ensures Legal(cfg, f, run)
    ensures var g := After(cfg, f, run);
            && InLoop(cfg, g, w) && g.workers[w].pc.k == f.workers[w].pc.k + 1
            && g.workers[w].pc.id == f.workers[w].pc.id
            && (forall i :: 0 <= i < |EdgesLeft(cfg, f, w)| ==> EdgesLeft(cfg, f, w)[i] < |f.deg|)
            && (forall i :: 0 <= i < |EdgesLeft(cfg, g, w)| ==> EdgesLeft(cfg, g, w)[i] < |g.deg|)
            && Consumed(cfg, f, w) == Consumed(cfg, g, w)
  {
    EdgesInRange(cfg, f, w);
    assert EdgesLeft(cfg, f, w)[0] < |f.deg|;
    var f' := Next(cfg, f, FetchSub(w));
    run := [FetchSub(w)];
    AfterOne(cfg, f, FetchSub(w));
    assert EdgesLeft(cfg, f, w)[1..] == cfg.out[f.workers[w].pc.id][f.workers[w].pc.k + 1..];
    if f'.workers[w].pc.push.Some? {
      AfterOne(cfg, f', Push(w));
      AfterJoin(cfg, f, run, [Push(w)]);
      run := run + [Push(w)];
    }
  }

  /** consume is an uninterrupted run of one worker's steps. */
  lemma {:induction false} ConsumeIsUninterruptedRun<S, R>(cfg: Config<S, R>, f: State<S, R>, w: nat)
    returns (run: seq<Action>)
    requires InLoop(cfg, f, w) && cfg.Valid()
    ensures forall i :: 0 <= i < |EdgesLeft(cfg, f, w)| ==> EdgesLeft(cfg, f, w)[i] < |f.deg|
    ensures Legal(cfg, f, run) && After(cfg, f, run) == Consumed(cfg, f, w)
    decreases |EdgesLeft(cfg, f, w)|
  {
    EdgesInRange(cfg, f, w);
    if EdgesLeft(cfg, f, w) == [] {
      run := [];
      assert f.workers[w := f.workers[w]] == f.workers;
    } else {
      var turn := OneTurn(cfg, f, w);
      var rest := ConsumeIsUninterruptedRun(cfg, After(cfg, f, turn), w);
      AfterJoin(cfg, f, turn, rest);
      run := turn + rest;
    }
  }

  /** The objects of the executor as a machine state with one worker. */
  ghost function Snapshot<S, R>(dag: Dag, flushed: nat, pc: Pc, cnt: nat, world: World<S, R>): State<S, R>
    reads dag
  {
    State(dag.inDegree, dag.topLevel, dag.totalConsume, flushed, [Worker(pc, cnt)], world)
  }

  /** What holds between the statements of executeUnit. */
  ghost predicate Current<K(!new), S, R>(
      cfg: Config<S, R>, cs: seq<Criticals<K>>, deg: seq<nat>, s: S, run: seq<Action>, f: State<S, R>)
  {
    Run(cfg, cs, deg, 1, s, run) && End(cfg, cs, deg, 1, s, run) == f && |cs| <= INVALID_ID
  }

  lemma CurrentFacts<K(!new), S, R>(
      cfg: Config<S, R>, cs: seq<Criticals<K>>, deg: seq<nat>, s: S, run: seq<Action>, f: State<S, R>)
    requires Current(cfg, cs, deg, s, run, f)
    ensures cfg.Valid() && |f.deg| == |cfg.out| == |cs|
    ensures |f.workers| == 1 && PcInRange(f.workers[0].pc, |cs|)
    ensures forall i :: 0 <= i < |f.queue| ==> f.queue[i] < INVALID_ID
    ensures UsefulSteps(run) <= Sum(Weights(cfg.out))
    ensures f.workers[0].pc.Flushing? && f.queue == [] ==> f.consumed >= |cs|
    ensures f.consumed >= |cs| && f.workers[0].pc.Flushing? ==> f.flushed + f.workers[0].cnt == |cs|
  {
    var h := Reach(cfg, cs, deg, 1, s, run);
    UsefulStepsBounded(cfg, deg, 1, s, run);
    WorkersKept(cfg, Initial(cfg, deg, 1, s), run);
    var w0 := Initial(cfg, deg, 1, s).world;
    if f.workers[0].pc.Flushing? && f.queue == [] && f.consumed < |cs| {
      NotStuck(cfg, f, h, w0);
    }
    if f.consumed >= |cs| {
      AllConsumed(cfg, f, h, w0);
    }
    assert f.workers == [f.workers[0]];
    assert Local(f.workers) == f.workers[0].cnt;
    assert BusyCount(f.workers) == if Busy(f.workers[0].pc) then 1 else 0;
  }

  /** Following a run further. */
  lemma Follow<K(!new), S, R>(
      cfg: Config<S, R>, cs: seq<Criticals<K>>, deg: seq<nat>, s: S, run: seq<Action>, f: State<S, R>,
      more: seq<Action>)
    returns (longer: seq<Action>)
    requires Current(cfg, cs, deg, s, run, f) && Legal(cfg, f, more)
    ensures Current(cfg, cs, deg, s, longer, After(cfg, f, more))
    ensures UsefulSteps(longer) == UsefulSteps(run) + UsefulSteps(more)
  {
    AfterJoin(cfg, Initial(cfg, deg, 1, s), run, more);
    UsefulJoin(run, more);
    longer := run + more;
  }

  lemma Advance<K(!new), S, R>(
      cfg: Config<S, R>, cs: seq<Criticals<K>>, deg: seq<nat>, s: S, run: seq<Action>, f: State<S, R>, a: Action)
    returns (longer: seq<Action>)
    requires Current(cfg, cs, deg, s, run, f) && Enabled(cfg, f, a)
    ensures Current(cfg, cs, deg, s, longer, Next(cfg, f, a))
    ensures UsefulSteps(longer) == UsefulSteps(run) + if Useful(a) then 1 else 0
  {
    AfterOne(cfg, f, a);
    longer := Follow(cfg, cs, deg, s, run, f, [a]);
  }

  /** The state after one turn of the do-while loop of executeUnit. */
  ghost function Turned<S, R>(cfg: Config<S, R>, f: State<S, R>): State<S, R>
    requires |f.workers| == 1 && f.workers[0].pc.Holding? && f.workers[0].pc.id < |cfg.out| == |f.deg|
    requires var out := cfg.out[f.workers[0].pc.id]; forall i :: 0 <= i < |out| ==> out[i] < |f.deg|
  {
    var id := f.workers[0].pc.id;
    var (deg, queue, next) := ConsumeEdges(f.deg, f.queue, None, cfg.out[id]);
    State(deg, queue, f.consumed + 1, f.flushed,
          [Worker(if next.Some? then Holding(next.value) else Popping, f.workers[0].cnt + 1)], Apply(cfg, f.world, id))
  }

  /** The state in which consume begins. */
  ghost function AfterExecution<S, R>(cfg: Config<S, R>, f: State<S, R>): State<S, R>
    requires |f.workers| == 1 && f.workers[0].pc.Holding? && f.workers[0].pc.id < |cfg.out|
  {
    var id := f.workers[0].pc.id;
    State(f.deg, f.queue, f.consumed, f.flushed,
          [Worker(Consuming(id, 0, None, None), f.workers[0].cnt + 1)], Apply(cfg, f.world, id))
  }

  lemma ExecutedByTwoSteps<S, R>(cfg: Config<S, R>, f: State<S, R>)
    requires |f.workers| == 1 && f.workers[0].pc.Holding? && f.workers[0].pc.id < |cfg.out|
    ensures Enabled(cfg, f, Start(0)) && Enabled(cfg, Next(cfg, f, Start(0)), Finish(0))
    ensures Next(cfg, Next(cfg, f, Start(0)), Finish(0)) == AfterExecution(cfg, f)
  {
  }

  lemma TurnedByLeave<S, R>(cfg: Config<S, R>, f: State<S, R>)
    requires |f.workers| == 1 && f.workers[0].pc.Holding? && f.workers[0].pc.id < |cfg.out| == |f.deg|
    requires var out := cfg.out[f.workers[0].pc.id]; forall i :: 0 <= i < |out| ==> out[i] < |f.deg|
    ensures var g := AfterExecution(cfg, f);
            && InLoop(cfg, g, 0) && EdgesLeft(cfg, g, 0) == cfg.out[f.workers[0].pc.id]
            && Enabled(cfg, Consumed(cfg, g, 0), Leave(0))
            && Next(cfg, Consumed(cfg, g, 0), Leave(0)) == Turned(cfg, f)
  {
  }

  lemma TurnIsRun<K(!new), S, R>(
      cfg: Config<S, R>, cs: seq<Criticals<K>>, deg: seq<nat>, s: S, run: seq<Action>, f: State<S, R>)
    returns (run': seq<Action>)
    requires Current(cfg, cs, deg, s, run, f) && |f.workers| == 1 && f.workers[0].pc.Holding?
    ensures f.workers[0].pc.id < |cfg.out| == |f.deg|
    ensures var out := cfg.out[f.workers[0].pc.id]; forall i :: 0 <= i < |out| ==> out[i] < |f.deg|
    ensures Current(cfg, cs, deg, s, run', Turned(cfg, f)) && UsefulSteps(run') > UsefulSteps(run)
  {
    CurrentFacts(cfg, cs, deg, s, run, f);
    var g := AfterExecution(cfg, f);
    ExecutedByTwoSteps(cfg, f);
    run' := Advance(cfg, cs, deg, s, run, f, Start(0));
    run' := Advance(cfg, cs, deg, s, run', Next(cfg, f, Start(0)), Finish(0));
    var turns := ConsumeIsUninterruptedRun(cfg, g, 0);
    run' := Follow(cfg, cs, deg, s, run', g, turns);
    assert EdgesLeft(cfg, g, 0) == cfg.out[f.workers[0].pc.id];
    TurnedByLeave(cfg, f);
    run' := Advance(cfg, cs, deg, s, run', Consumed(cfg, g, 0), Leave(0));
  }

  /** One turn of the do-while loop of executeUnit. */
  method ExecuteOne<K(!new), S, R>(
      cfg: Config<S, R>, ghost cs: seq<Criticals<K>>, ghost deg: seq<nat>, ghost s: S, ghost run: seq<Action>,
      dag: Dag, ghost flushed: nat, id: nat, exeCnt: nat, world: World<S, R>)
    returns (nextId: nat, world': World<S, R>, ghost run': seq<Action>)
    requires Current(cfg, cs, deg, s, run, Snapshot(dag, flushed, Holding(id), exeCnt, world))
    requires dag.outEdge == cfg.out
    modifies dag
    ensures dag.outEdge == cfg.out
    ensures var pc := if nextId == INVALID_ID then Popping else Holding(nextId);
            Current(cfg, cs, deg, s, run', Snapshot(dag, flushed, pc, exeCnt + 1, world'))
    ensures UsefulSteps(run') > UsefulSteps(run)
  {
    ghost var f := Snapshot(dag, flushed, Holding(id), exeCnt, world);
    run' := TurnIsRun(cfg, cs, deg, s, run, f);
    world' := Apply(cfg, world, id);
    nextId := dag.Consume(id);
    assert Turned(cfg, f)
        == Snapshot(dag, flushed, if nextId == INVALID_ID then Popping else Holding(nextId), exeCnt + 1, world');
  }

  /**
    executeUnit on a freshly prepared graph, when no other thread runs: it
    executes every transaction, and the world is that of the serial loop.
    The caller tests hasFinished first, so the block is not empty.
   */
  method ExecuteUnit<K(==,!new), S(!new), R>(
      cfg: Config<S, R>, ghost cs: seq<Criticals<K>>, tx: TxDAG<K>, s: S)
    returns (exeCnt: nat, world: World<S, R>, ghost states: seq<S>)
    requires |cs| <= INVALID_ID && NonConflictingCommute(cfg, cs) && Prepared(cfg, cs, tx.dag.inDegree)
    requires tx.dag.outEdge == cfg.out && tx.dag.topLevel == Ready(tx.dag.inDegree, |cs|)
    requires tx.dag.totalConsume == 0 && tx.exeCnt == 0 && cs != []
    modifies tx, tx.dag
    ensures world == Serial(cfg, s) && BlockInTurn(cfg, s, states, world)
    ensures exeCnt == |cs| && tx.exeCnt == |cs| && tx.dag.totalConsume >= |cs|
  {
    ghost var deg := tx.dag.inDegree;
    exeCnt, world := 0, World(s, seq(|cfg.out|, _ => None));
    ghost var run: seq<Action> := [];
    assert Initial(cfg, deg, 1, s) == Snapshot(tx.dag, 0, Outside, 0, world);
    run := Advance(cfg, cs, deg, s, run, Snapshot(tx.dag, 0, Outside, 0, world), Enter(0));
    assert Current(cfg, cs, deg, s, run, Snapshot(tx.dag, 0, Popping, 0, world));
    var id;
    id, run := PopOrGiveUp(cfg, cs, deg, s, run, tx.dag, 0, exeCnt, world);
    PreparedValid(cfg, cs, deg);
    UsefulStepsBounded(cfg, deg, 1, s, run);
    while id != INVALID_ID
      modifies tx.dag
      invariant tx.dag.outEdge == cfg.out
      invariant Current(cfg, cs, deg, s, run,
                        Snapshot(tx.dag, 0, if id == INVALID_ID then Flushing else Holding(id), exeCnt, world))
      invariant id == INVALID_ID ==> tx.dag.topLevel == []
      invariant UsefulSteps(run) <= Sum(Weights(cfg.out))
      decreases Sum(Weights(cfg.out)) - UsefulSteps(run)
    {
      ghost var before := UsefulSteps(run);
      while id != INVALID_ID
        modifies tx.dag
        invariant tx.dag.outEdge == cfg.out
        invariant Current(cfg, cs, deg, s, run,
                          Snapshot(tx.dag, 0, if id == INVALID_ID then Popping else Holding(id), exeCnt, world))
        invariant before <= UsefulSteps(run) <= Sum(Weights(cfg.out))
        invariant id == INVALID_ID ==> before < UsefulSteps(run)
        decreases Sum(Weights(cfg.out)) - UsefulSteps(run)
      {
        id, world, run := ExecuteOne(cfg, cs, deg, s, run, tx.dag, 0, id, exeCnt, world);
        exeCnt := exeCnt + 1;
        UsefulStepsBounded(cfg, deg, 1, s, run);
      }
      id, run := PopOrGiveUp(cfg, cs, deg, s, run, tx.dag, 0, exeCnt, world);
      UsefulStepsBounded(cfg, deg, 1, s, run);
    }
    CurrentFacts(cfg, cs, deg, s, run, Snapshot(tx.dag, 0, Flushing, exeCnt, world));
    states := Serializable(cfg, cs, deg, 1, s, run);
    if exeCnt > 0 {
      tx.exeCnt := tx.exeCnt + exeCnt;
    }
  }

  method PopOrGiveUp<K(!new), S, R>(
      cfg: Config<S, R>, ghost cs: seq<Criticals<K>>, ghost deg: seq<nat>, ghost s: S, ghost run: seq<Action>,
      dag: Dag, ghost flushed: nat, ghost exeCnt: nat, ghost world: World<S, R>)
    returns (id: nat, ghost run': seq<Action>)
    requires Current(cfg, cs, deg, s, run, Snapshot(dag, flushed, Popping, exeCnt, world))
    modifies dag`topLevel
    ensures id == INVALID_ID ==> dag.topLevel == []
    ensures Current(cfg, cs, deg, s, run',
                    Snapshot(dag, flushed, if id == INVALID_ID then Flushing else Holding(id), exeCnt, world))
    ensures UsefulSteps(run') >= UsefulSteps(run)
  {
    ghost var f := Snapshot(dag, flushed, Popping, exeCnt, world);
    CurrentFacts(cfg, cs, deg, s, run, f);
    ghost var a := if dag.topLevel == [] then PopNone(0) else Pop(0);
    id := dag.WaitPop();
    run' := Advance(cfg, cs, deg, s, run, f, a);
    assert Next(cfg, f, a)
        == Snapshot(dag, flushed, if id == INVALID_ID then Flushing else Holding(id), exeCnt, world);
  }
}
