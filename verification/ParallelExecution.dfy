/**
  What parallelExecuteBlock guarantees, for every block, every number of worker
  threads and every interleaving of their steps. The statements speak about the
  machine alone; the history of module SchedulerInvariant stays in the proofs.
 */
module ParallelExecution {
  import opened Prelude
  import opened Conflicts
  import opened EdgeCounts
  import opened TxDag
  import opened Scheduler
  import opened SchedulerInvariant
  import opened SchedulerProgress
  import opened Serializability

  /** The block that is executed: its graph as TxDAG::init builds it, and its in-degrees. */
  ghost predicate Prepared<K(!new), S, R>(cfg: Config<S, R>, cs: seq<Criticals<K>>, deg: seq<nat>) {
    cfg.out == OutEdges(cs, |cs|) && InDegrees(cfg.out, deg)
  }

  lemma PreparedValid<K(!new), S, R>(cfg: Config<S, R>, cs: seq<Criticals<K>>, deg: seq<nat>)
    requires Prepared(cfg, cs, deg)
    ensures cfg.Valid()
  {
    forall p: nat, t | p < |cfg.out| && t in cfg.out[p]
      ensures p < t < |cfg.out|
    {
      OutEdgesAreEdges(cs, p, t);
    }
  }

  /** A run that the workers can make from the state TxDAG::init leaves. */
  ghost predicate Run<K(!new), S, R>(
      cfg: Config<S, R>, cs: seq<Criticals<K>>, deg: seq<nat>, threads: nat, s: S, run: seq<Action>)
  {
    Prepared(cfg, cs, deg) && Legal(cfg, Initial(cfg, deg, threads, s), run)
  }

  ghost function End<K(!new), S, R>(
      cfg: Config<S, R>, cs: seq<Criticals<K>>, deg: seq<nat>, threads: nat, s: S, run: seq<Action>): State<S, R>
    requires Run(cfg, cs, deg, threads, s, run)
  {
    After(cfg, Initial(cfg, deg, threads, s), run)
  }

  lemma Reach<K(!new), S, R>(
      cfg: Config<S, R>, cs: seq<Criticals<K>>, deg: seq<nat>, threads: nat, s: S, run: seq<Action>)
    returns (h: History)
    requires Run(cfg, cs, deg, threads, s, run)
    ensures cfg.Valid()
    ensures Inv(cfg, End(cfg, cs, deg, threads, s, run), h, Initial(cfg, deg, threads, s).world)
  {
    PreparedValid(cfg, cs, deg);
    InitialInv(cfg, deg, threads, s);
    h := RunKeepsInv(cfg, Initial(cfg, deg, threads, s), Start0(cfg, deg), run, Initial(cfg, deg, threads, s).world);
  }

  /** The places where vertex v can be seen in a state. */
  ghost function Spots<S, R>(s: State<S, R>, v: nat): set<Place>
    requires v < |s.deg|
  {
    (if s.deg[v] > 0 then {Waiting} else {})
    + (if v in s.queue then {Queued} else {})
    + (set w: nat | w < |s.workers| && Holds(s.workers[w].pc, v) :: At(w))
    + (set w: nat | w < |s.workers| && Offers(s.workers[w].pc, v) :: HandedOff(w))
    + (set w: nat | w < |s.workers| && Releases(s.workers[w].pc, v) :: Released(w))
  }

  lemma PlacedSpot<S, R>(s: State<S, R>, place: Place, v: nat)
    requires v < |s.deg| && PlacedAt(s, place, v)
    ensures Spots(s, v) == if place.Done? then {} else {place}
  {
    forall p | p in Spots(s, v)
      ensures p == place
    {
    }
    if !place.Done? {
      assert place in Spots(s, v);
    }
  }

  /** The vertices that are nowhere any more: not waiting, not queued, with no worker. */
  ghost function Gone<S, R>(s: State<S, R>): set<nat> {
    set v: nat | v < |s.deg| && Spots(s, v) == {}
  }

  lemma OneSpot<S, R>(s: State<S, R>, place: Place, v: nat)
    requires v < |s.deg| && PlacedAt(s, place, v)
    ensures |Spots(s, v)| <= 1 && (v in Gone(s) <==> place.Done?)
  {
    PlacedSpot(s, place, v);
  }

  /** Every vertex is in one place at most, and has left them all exactly when it was consumed. */
  lemma ExactlyOnePlace<K(!new), S, R>(
      cfg: Config<S, R>, cs: seq<Criticals<K>>, deg: seq<nat>, threads: nat, s: S, run: seq<Action>)
    requires Run(cfg, cs, deg, threads, s, run)
    ensures var f := End(cfg, cs, deg, threads, s, run);
            && |f.deg| == |cs| && Distinct(f.queue)
            && (forall v: nat :: v < |f.deg| ==> |Spots(f, v)| <= 1)
            && f.consumed == |Gone(f)|
  {
    var h := Reach(cfg, cs, deg, threads, s, run);
    var f := End(cfg, cs, deg, threads, s, run);
    forall v: nat | v < |f.deg|
      ensures |Spots(f, v)| <= 1 && (v in Gone(f) <==> v in DoneSet(h.place))
    {
      assert PlacedAt(f, h.place[v], v);
      OneSpot(f, h.place[v], v);
    }
    assert Gone(f) == DoneSet(h.place);
  }

  /** Worker w stands in the out-edge loop of v. */
  ghost predicate ConsumesAt<S, R>(cfg: Config<S, R>, f: State<S, R>, v: nat, w: nat)
    requires v < |cfg.out|
  {
    && w < |f.workers| && Holds(f.workers[w].pc, v)
    && f.workers[w].pc.Consuming? && f.workers[w].pc.k <= |cfg.out[v]|
  }

  /** The out-edges of v that are still to be decremented, read off the state. */
  ghost predicate IsUndecremented<S, R>(cfg: Config<S, R>, f: State<S, R>, v: nat, rest: seq<nat>)
    requires v < |cfg.out| && v < |f.deg|
  {
    && (Spots(f, v) == {} ==> rest == [])
    && (forall w: nat :: ConsumesAt(cfg, f, v, w) ==> rest == cfg.out[v][f.workers[w].pc.k..])
    && (Spots(f, v) != {} && (forall w: nat :: !ConsumesAt(cfg, f, v, w)) ==> rest == cfg.out[v])
  }

  lemma RestIsUndecremented<S, R>(cfg: Config<S, R>, f: State<S, R>, h: History, v: nat)
    requires Shape(cfg, f, h) && v < |cfg.out| && PlacedAt(f, h.place[v], v) && RestOf(cfg, f, h, v)
    ensures IsUndecremented(cfg, f, v, h.rest[v])
  {
    PlacedSpot(f, h.place[v], v);
    if h.place[v].At? && f.workers[h.place[v].w].pc.Consuming? {
      assert ConsumesAt(cfg, f, v, h.place[v].w);
    }
  }

  /** Each in-degree counter equals the incoming edges not yet decremented, with multiplicity. */
  lemma DegreesCountUndecremented<K(!new), S, R>(
      cfg: Config<S, R>, cs: seq<Criticals<K>>, deg: seq<nat>, threads: nat, s: S, run: seq<Action>)
    returns (rest: seq<seq<nat>>)
    requires Run(cfg, cs, deg, threads, s, run)
    ensures var f := End(cfg, cs, deg, threads, s, run);
            && |f.deg| == |cs| == |rest|
            && (forall v: nat :: v < |cs| ==> IsUndecremented(cfg, f, v, rest[v]))
            && (forall t: nat :: t < |cs| ==> f.deg[t] == InCount(rest, t))
  {
    var h := Reach(cfg, cs, deg, threads, s, run);
    var f := End(cfg, cs, deg, threads, s, run);
    forall v: nat | v < |cs|
      ensures IsUndecremented(cfg, f, v, h.rest[v])
    {
      assert PlacedAt(f, h.place[v], v) && RestOf(cfg, f, h, v);
      RestIsUndecremented(cfg, f, h, v);
    }
    rest := h.rest;
  }

  lemma {:induction false} ReceiptsOfLog<S, R>(cfg: Config<S, R>, w0: World<S, R>, log: seq<nat>, v: nat)
    requires v < |w0.receipts|
    ensures |RunInOrder(cfg, w0, log).receipts| == |w0.receipts|
    ensures RunInOrder(cfg, w0, log).receipts[v].Some? <==> w0.receipts[v].Some? || v in log
  {
    if log == [] {
    } else {
      ReceiptsOfLog(cfg, w0, log[..|log| - 1], v);
      assert log == log[..|log| - 1] + [log[|log| - 1]];
    }
  }

  /** A transaction is released only after every conflicting earlier one has its receipt. */
  lemma ReleasedAfterConflicts<K(!new), S, R>(
      cfg: Config<S, R>, cs: seq<Criticals<K>>, deg: seq<nat>, threads: nat, s: S, run: seq<Action>, i: nat, j: nat)
    requires Run(cfg, cs, deg, threads, s, run) && i < j < |cs| && Conflict(cs[i], cs[j])
    ensures var f := End(cfg, cs, deg, threads, s, run);
            && |f.deg| == |f.world.receipts| == |cs|
            && (f.deg[j] == 0 ==>
                  && f.world.receipts[i].Some?
                  && forall w: nat :: w < |f.workers| && Holds(f.workers[w].pc, i) ==> f.workers[w].pc.Consuming?)
  {
    var h := Reach(cfg, cs, deg, threads, s, run);
    var f := End(cfg, cs, deg, threads, s, run);
    if f.deg[j] == 0 {
      assert PlacedAt(f, h.place[j], j) && PlacedAt(f, h.place[i], i);
      var p := ConflictHolder(cs, i, j);
      OutEdgesAreEdges(cs, p, j);
      PredecessorsExecuted(cfg, f, h, p, j);
      assert p in h.log;
      if i < p {
        ConflictHasPath(cs, i, p);
        var q :| 0 <= q < |h.log| && h.log[q] == p;
        LogFollowsPaths(cs, h.log, i, p, q);
        assert forall x :: x in h.log[..q] ==> x in h.log;
      }
      assert i in h.log && Executed(f, h, i);
      ReceiptsOfLog(cfg, Initial(cfg, deg, threads, s).world, h.log, i);
    }
  }

  /** Two conflicting transactions are never both between being taken and having taken effect. */
  lemma ConflictingNeverTogether<K(!new), S, R>(
      cfg: Config<S, R>, cs: seq<Criticals<K>>, deg: seq<nat>, threads: nat, s: S, run: seq<Action>,
      i: nat, j: nat, v: nat, w: nat)
    requires Run(cfg, cs, deg, threads, s, run) && i < j < |cs| && Conflict(cs[i], cs[j])
    requires v < |End(cfg, cs, deg, threads, s, run).workers| && w < |End(cfg, cs, deg, threads, s, run).workers|
    ensures var f := End(cfg, cs, deg, threads, s, run);
            !(Holds(f.workers[v].pc, i) && !f.workers[v].pc.Consuming? && Holds(f.workers[w].pc, j))
  {
    ReleasedAfterConflicts(cfg, cs, deg, threads, s, run, i, j);
    var h := Reach(cfg, cs, deg, threads, s, run);
    assert PlacedAt(End(cfg, cs, deg, threads, s, run), h.place[j], j);
  }

  /** When hasFinished holds without an exit request, every transaction was executed and consumed. */
  lemma FinishedMeansConsumed<K(!new), S, R>(
      cfg: Config<S, R>, cs: seq<Criticals<K>>, deg: seq<nat>, threads: nat, s: S, run: seq<Action>)
    requires Run(cfg, cs, deg, threads, s, run)
    ensures var f := End(cfg, cs, deg, threads, s, run);
            f.flushed >= |cs| ==>
              f.consumed == |cs| == |f.deg| && f.queue == [] && forall v: nat :: v < |f.deg| ==> Spots(f, v) == {}
  {
    var h := Reach(cfg, cs, deg, threads, s, run);
    var f := End(cfg, cs, deg, threads, s, run);
    if f.flushed >= |cs| {
      BusyWithinLocal(f.workers);
      AllConsumed(cfg, f, h, Initial(cfg, deg, threads, s).world);
      forall v: nat | v < |f.deg|
        ensures Spots(f, v) == {}
      {
        assert PlacedAt(f, h.place[v], v);
        PlacedSpot(f, h.place[v], v);
      }
    }
  }

  /** The transactions whose execution has begun: consumed ones, and those a worker executes or consumes. */
  ghost function Begun<S, R>(s: State<S, R>): set<nat> {
    Gone(s) + BusyIds(s.workers)
  }

  ghost function BusyIds(workers: seq<Worker>): set<nat> {
    set w | 0 <= w < |workers| && Busy(workers[w].pc) :: workers[w].pc.id
  }

  lemma {:induction false} BusyIdsCount(workers: seq<Worker>)
    requires forall v, w :: 0 <= v < w < |workers| && Busy(workers[v].pc) && Busy(workers[w].pc) ==>
                              workers[v].pc.id != workers[w].pc.id
    ensures |BusyIds(workers)| == BusyCount(workers)
  {
    if workers == [] {
    } else {
      BusyIdsCount(workers[1..]);
      var tail := BusyIds(workers[1..]);
      forall id
        ensures id in BusyIds(workers) <==> id in tail || (Busy(workers[0].pc) && id == workers[0].pc.id)
      {
        if id in tail {
          var w :| 0 <= w < |workers[1..]| && Busy(workers[1..][w].pc) && workers[1..][w].pc.id == id;
          assert workers[w + 1] == workers[1..][w];
        }
        if id in BusyIds(workers) {
          var w :| 0 <= w < |workers| && Busy(workers[w].pc) && workers[w].pc.id == id;
          assert w == 0 || workers[1..][w - 1] == workers[w];
        }
      }
      assert BusyIds(workers) == if Busy(workers[0].pc) then tail + {workers[0].pc.id} else tail;
    }
  }

  /** The flushed count and the local counts together are the executions begun, each transaction once. */
  lemma CountsAreExecutions<K(!new), S, R>(
      cfg: Config<S, R>, cs: seq<Criticals<K>>, deg: seq<nat>, threads: nat, s: S, run: seq<Action>)
    requires Run(cfg, cs, deg, threads, s, run)
    ensures var f := End(cfg, cs, deg, threads, s, run); f.flushed + Local(f.workers) == |Begun(f)|
  {
    var h := Reach(cfg, cs, deg, threads, s, run);
    var f := End(cfg, cs, deg, threads, s, run);
    ExactlyOnePlace(cfg, cs, deg, threads, s, run);
    forall w | 0 <= w < |f.workers| && Busy(f.workers[w].pc)
      ensures f.workers[w].pc.id < |h.place| && h.place[f.workers[w].pc.id] == At(w)
      ensures f.workers[w].pc.id !in Gone(f)
    {
      var id := f.workers[w].pc.id;
      assert Holds(f.workers[w].pc, id) && PlacedAt(f, h.place[id], id);
      PlacedSpot(f, h.place[id], id);
    }
    BusyIdsCount(f.workers);
    assert Gone(f) !! BusyIds(f.workers);
  }

  /** Every run can be continued until all workers have left the loop. */
  lemma EveryRunCanFinish<K(!new), S, R>(
      cfg: Config<S, R>, cs: seq<Criticals<K>>, deg: seq<nat>, threads: nat, s: S, run: seq<Action>)
    returns (rest: seq<Action>)
    requires Run(cfg, cs, deg, threads, s, run) && threads > 0
    ensures Legal(cfg, End(cfg, cs, deg, threads, s, run), rest)
    ensures var f := After(cfg, End(cfg, cs, deg, threads, s, run), rest);
            f.consumed >= |cs| && forall w :: 0 <= w < |f.workers| ==> f.workers[w].pc.Exited?
  {
    var w0 := Initial(cfg, deg, threads, s).world;
    var h := Reach(cfg, cs, deg, threads, s, run);
    var f := End(cfg, cs, deg, threads, s, run);
    WorkersKept(cfg, Initial(cfg, deg, threads, s), run);
    var consume, h' := CanConsumeAll(cfg, f, h, w0);
    var leave := CanLeave(cfg, After(cfg, f, consume), h', w0);
    AfterJoin(cfg, f, consume, leave);
    rest := consume + leave;
    ConsumedGrows(cfg, After(cfg, f, consume), leave);
  }

  lemma {:induction false} WorkersKept<S, R>(cfg: Config<S, R>, s: State<S, R>, run: seq<Action>)
    requires Legal(cfg, s, run)
    ensures |After(cfg, s, run).workers| == |s.workers|
    decreases |run|
  {
    if run == [] {
    } else {
      WorkersKept(cfg, Next(cfg, s, run[0]), run[1..]);
    }
  }

  lemma {:induction false} ConsumedGrows<S, R>(cfg: Config<S, R>, s: State<S, R>, run: seq<Action>)
    requires Legal(cfg, s, run)
    ensures After(cfg, s, run).consumed >= s.consumed
    decreases |run|
  {
    if run == [] {
    } else {
      ConsumedGrows(cfg, Next(cfg, s, run[0]), run[1..]);
    }
  }

  lemma {:induction false} AfterJoin<S, R>(cfg: Config<S, R>, s: State<S, R>, a: seq<Action>, b: seq<Action>)
    requires Legal(cfg, s, a) && Legal(cfg, After(cfg, s, a), b)
    ensures Legal(cfg, s, a + b) && After(cfg, s, a + b) == After(cfg, After(cfg, s, a), b)
    decreases |a|
  {
    if a == [] {
      assert a + b == b;
    } else {
      assert (a + b)[1..] == a[1..] + b;
      AfterJoin(cfg, Next(cfg, s, a[0]), a[1..], b);
    }
  }

  lemma AfterOne<S, R>(cfg: Config<S, R>, s: State<S, R>, a: Action)
    requires Enabled(cfg, s, a)
    ensures Legal(cfg, s, [a]) && After(cfg, s, [a]) == Next(cfg, s, a)
  {
    var one := [a];
    assert one[1..] == [];
    assert After(cfg, Next(cfg, s, a), []) == Next(cfg, s, a);
  }

  /** The serial loop of serialExecuteBlock. */
  function Serial<S, R>(cfg: Config<S, R>, s: S): World<S, R> {
    RunInOrder(cfg, World(s, seq(|cfg.out|, _ => None)), Ascending(|cfg.out|))
  }

  /**
    The block was executed transaction by transaction: each on the state that
    the one before it left, and its receipt is at its index.
   */
  ghost predicate BlockInTurn<S, R>(cfg: Config<S, R>, s: S, states: seq<S>, world: World<S, R>) {
    && |states| == |cfg.out| + 1 && |world.receipts| == |cfg.out|
    && states[0] == s && states[|cfg.out|] == world.state
    && forall i :: 0 <= i < |cfg.out| ==>
                     world.receipts[i].Some? && (states[i + 1], world.receipts[i].value) == cfg.exec(i, states[i])
  }

  lemma SerialInTurn<S, R>(cfg: Config<S, R>, s: S) returns (states: seq<S>)
    ensures BlockInTurn(cfg, s, states, Serial(cfg, s))
  {
    var log := Ascending(|cfg.out|);
    states := OrderInTurn(cfg, World(s, seq(|cfg.out|, _ => None)), log);
    var rs := Serial(cfg, s).receipts;
    forall i | 0 <= i < |cfg.out|
      ensures rs[i].Some? && (states[i + 1], rs[i].value) == cfg.exec(i, states[i])
    {
      assert log[i] == i && StepAt(cfg, log, states, rs, i);
    }
  }

  /**
    In every reachable state, whether or not the block is finished, some of its
    transactions have taken effect one after the other, conflicting ones in
    block order, and exactly these have a receipt.
   */
  lemma TakesEffectInTurn<K(!new), S, R>(
      cfg: Config<S, R>, cs: seq<Criticals<K>>, deg: seq<nat>, threads: nat, s: S, run: seq<Action>)
    returns (log: seq<nat>, states: seq<S>)
    requires Run(cfg, cs, deg, threads, s, run)
    ensures var world := End(cfg, cs, deg, threads, s, run).world;
            && |world.receipts| == |cs| && Distinct(log) && InversionsIndependent(cs, log)
            && InTurn(cfg, log, states, world.receipts) && states[0] == s && states[|log|] == world.state
            && forall i: nat :: i < |cs| ==> (i in log <==> world.receipts[i].Some?)
  {
    var h := Reach(cfg, cs, deg, threads, s, run);
    log := h.log;
    assert forall k :: 0 <= k < |log| ==> log[k] in log;
    LogInversionsIndependent(cs, log);
    states := OrderInTurn(cfg, Initial(cfg, deg, threads, s).world, log);
    forall i: nat | i < |cs|
      ensures i in log <==> End(cfg, cs, deg, threads, s, run).world.receipts[i].Some?
    {
      ReceiptsOfLog(cfg, Initial(cfg, deg, threads, s).world, log, i);
    }
  }

  /** Whatever the interleaving, once a worker has left, the state and every receipt are those of the serial loop. */
  lemma Serializable<K(!new), S(!new), R>(
      cfg: Config<S, R>, cs: seq<Criticals<K>>, deg: seq<nat>, threads: nat, s: S, run: seq<Action>)
    returns (states: seq<S>)
    requires Run(cfg, cs, deg, threads, s, run) && NonConflictingCommute(cfg, cs)
    requires var f := End(cfg, cs, deg, threads, s, run);
             f.flushed >= |cs| || f.consumed >= |cs| || exists w :: 0 <= w < |f.workers| && f.workers[w].pc.Exited?
    ensures End(cfg, cs, deg, threads, s, run).world == Serial(cfg, s)
    ensures BlockInTurn(cfg, s, states, End(cfg, cs, deg, threads, s, run).world)
  {
    var h := Reach(cfg, cs, deg, threads, s, run);
    var f := End(cfg, cs, deg, threads, s, run);
    var w0 := Initial(cfg, deg, threads, s).world;
    BusyWithinLocal(f.workers);
    AllConsumed(cfg, f, h, w0);
    assert forall v: nat :: v < |cs| ==> Executed(f, h, v);
    assert forall i :: 0 <= i < |h.log| ==> h.log[i] in h.log;
    LogInversionsIndependent(cs, h.log);
    OrderIrrelevant(cfg, cs, w0, h.log, |cs|);
    assert w0 == World(s, seq(|cfg.out|, _ => None));
    states := SerialInTurn(cfg, s);
  }
}
