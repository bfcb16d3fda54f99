/**
  No run of the workers gets stuck: while a transaction is not consumed some
  worker is busy or can pop, the steps that do work are bounded by vertices and
  edges, and every run can be continued until all workers have left.
 */
module SchedulerProgress {
  import opened Prelude
  import opened EdgeCounts
  import opened Scheduler
  import opened SchedulerInvariant

  /** The steps that do work; the others poll. */
  predicate Useful(a: Action) {
    a.Pop? || a.Start? || a.Finish? || a.FetchSub? || a.Push? || a.Leave?
  }

  function UsefulSteps(run: seq<Action>): nat {
    if run == [] then 0 else (if Useful(run[0]) then 1 else 0) + UsefulSteps(run[1..])
  }

  /** A bound on the useful steps that vertex v still causes. */
  function Rank<S, R>(cfg: Config<S, R>, s: State<S, R>, h: History, v: nat): nat
    requires v < |cfg.out| && v < |h.place|
  {
    match h.place[v]
    case Waiting => |cfg.out[v]| + 6
    case Released(_) => |cfg.out[v]| + 5
    case Queued => |cfg.out[v]| + 4
    case HandedOff(_) => |cfg.out[v]| + 4
    case At(w) =>
      if w >= |s.workers| then 0 else
      (match s.workers[w].pc
       case Holding(_) => |cfg.out[v]| + 3
       case Executing(_) => |cfg.out[v]| + 2
       case Consuming(_, k, _, _) => if k <= |cfg.out[v]| then |cfg.out[v]| - k + 1 else 0
       case _ => 0)
    case Done => 0
  }

  function Sum(xs: seq<nat>): nat {
    if xs == [] then 0 else xs[0] + Sum(xs[1..])
  }

  function Ranks<S, R>(cfg: Config<S, R>, s: State<S, R>, h: History): seq<nat>
    requires |h.place| == |cfg.out|
  {
    seq(|cfg.out|, v requires 0 <= v < |cfg.out| => Rank(cfg, s, h, v))
  }

  function Work<S, R>(cfg: Config<S, R>, s: State<S, R>, h: History): nat
    requires |h.place| == |cfg.out|
  {
    Sum(Ranks(cfg, s, h))
  }

  /** Six per vertex and one per edge. */
  function Weights(out: seq<seq<nat>>): seq<nat> {
    seq(|out|, v requires 0 <= v < |out| => |out[v]| + 6)
  }

  lemma {:induction false} SumMonotone(a: seq<nat>, b: seq<nat>)
    requires |a| == |b| && forall i :: 0 <= i < |a| ==> a[i] <= b[i]
    ensures Sum(a) <= Sum(b)
    ensures (exists i :: 0 <= i < |a| && a[i] < b[i]) ==> Sum(a) < Sum(b)
  {
    if a == [] {
    } else {
      SumMonotone(a[1..], b[1..]);
      if i :| 0 <= i < |a| && a[i] < b[i] {
        if i > 0 {
          assert a[1..][i - 1] < b[1..][i - 1];
        }
      }
    }
  }

  /** The vertex that a useful step moves on. */
  function Mover<S, R>(cfg: Config<S, R>, s: State<S, R>, a: Action): nat
    requires Enabled(cfg, s, a) && Useful(a)
  {
    if a.Pop? then s.queue[0]
    else if a.Push? then s.workers[a.w].pc.push.value
    else s.workers[a.w].pc.id
  }

  lemma RankFalls<S, R>(cfg: Config<S, R>, s: State<S, R>, h: History, a: Action, v: nat)
    requires Enabled(cfg, s, a) && Shape(cfg, s, h) && Placed(s, h) && DegreesMatch(cfg, s, h) && v < |cfg.out|
    requires !a.Leave? && !a.FetchSub?
    ensures Rank(cfg, Next(cfg, s, a), Noted(cfg, s, h, a), v) <= Rank(cfg, s, h, v)
    ensures Useful(a) && v == Mover(cfg, s, a) ==>
              Rank(cfg, Next(cfg, s, a), Noted(cfg, s, h, a), v) < Rank(cfg, s, h, v)
  {
    var pc := s.workers[a.w].pc;
    assert PlacedAt(s, h.place[v], v) && RestOf(cfg, s, h, v);
    if Useful(a) {
      var x := Mover(cfg, s, a);
      assert PlacedAt(s, h.place[x], x);
      assert a.Push? ==> Releases(pc, x);
      assert a.Start? || a.Finish? ==> Holds(pc, x);
    }
  }

  lemma FetchSubRankFalls<S, R>(cfg: Config<S, R>, s: State<S, R>, h: History, a: Action, v: nat)
    requires Enabled(cfg, s, a) && Shape(cfg, s, h) && Placed(s, h) && DegreesMatch(cfg, s, h) && v < |cfg.out|
    requires a.FetchSub?
    ensures Rank(cfg, Next(cfg, s, a), Noted(cfg, s, h, a), v) <= Rank(cfg, s, h, v)
    ensures v == Mover(cfg, s, a) ==> Rank(cfg, Next(cfg, s, a), Noted(cfg, s, h, a), v) < Rank(cfg, s, h, v)
  {
    assert PlacedAt(s, h.place[v], v) && RestOf(cfg, s, h, v);
    PendingEdge(cfg, s, h, a);
  }

  lemma LeaveRankFalls<S, R>(cfg: Config<S, R>, s: State<S, R>, h: History, a: Action, v: nat)
    requires Enabled(cfg, s, a) && Shape(cfg, s, h) && Placed(s, h) && DegreesMatch(cfg, s, h) && v < |cfg.out|
    requires a.Leave?
    ensures Rank(cfg, Next(cfg, s, a), Noted(cfg, s, h, a), v) <= Rank(cfg, s, h, v)
    ensures v == Mover(cfg, s, a) ==> Rank(cfg, Next(cfg, s, a), Noted(cfg, s, h, a), v) < Rank(cfg, s, h, v)
  {
    var pc := s.workers[a.w].pc;
    assert PlacedAt(s, h.place[v], v) && RestOf(cfg, s, h, v);
    assert PlacedAt(s, h.place[pc.id], pc.id) && Holds(pc, pc.id) && RestOf(cfg, s, h, pc.id);
    if pc.next.Some? {
      assert PlacedAt(s, h.place[pc.next.value], pc.next.value) && Offers(pc, pc.next.value);
    }
  }

  /** Useful steps use up work, and no step makes any. */
  lemma WorkFalls<S, R>(cfg: Config<S, R>, s: State<S, R>, h: History, a: Action)
    requires Enabled(cfg, s, a) && Shape(cfg, s, h) && Placed(s, h) && DegreesMatch(cfg, s, h)
    ensures |Noted(cfg, s, h, a).place| == |cfg.out|
    ensures Work(cfg, Next(cfg, s, a), Noted(cfg, s, h, a)) <= Work(cfg, s, h)
    ensures Useful(a) ==> Work(cfg, Next(cfg, s, a), Noted(cfg, s, h, a)) < Work(cfg, s, h)
  {
    var s', h' := Next(cfg, s, a), Noted(cfg, s, h, a);
    var after, before := Ranks(cfg, s', h'), Ranks(cfg, s, h);
    forall v: nat | v < |cfg.out|
      ensures after[v] <= before[v]
      ensures Useful(a) && v == Mover(cfg, s, a) ==> after[v] < before[v]
    {
      if a.Leave? {
        LeaveRankFalls(cfg, s, h, a, v);
      } else if a.FetchSub? {
        FetchSubRankFalls(cfg, s, h, a, v);
      } else {
        RankFalls(cfg, s, h, a, v);
      }
    }
    if Useful(a) {
      var x := Mover(cfg, s, a);
      assert after[x] < before[x];
    }
    SumMonotone(after, before);
  }

  lemma {:induction false} StepsWithinWork<S, R>(
      cfg: Config<S, R>, s: State<S, R>, h: History, run: seq<Action>, w0: World<S, R>)
    requires cfg.Valid() && Legal(cfg, s, run) && Inv(cfg, s, h, w0)
    ensures UsefulSteps(run) <= Work(cfg, s, h)
    decreases |run|
  {
    if run == [] {
    } else {
      WorkFalls(cfg, s, h, run[0]);
      StepKeepsInv(cfg, s, h, run[0], w0);
      StepsWithinWork(cfg, Next(cfg, s, run[0]), Noted(cfg, s, h, run[0]), run[1..], w0);
    }
  }

  /** However the workers interleave, they do at most six steps per transaction and one per edge. */
  lemma UsefulStepsBounded<S, R>(cfg: Config<S, R>, deg: seq<nat>, threads: nat, s: S, run: seq<Action>)
    requires cfg.Valid() && InDegrees(cfg.out, deg) && Legal(cfg, Initial(cfg, deg, threads, s), run)
    ensures UsefulSteps(run) <= Sum(Weights(cfg.out))
  {
    var s0 := Initial(cfg, deg, threads, s);
    var h := Start0(cfg, deg);
    InitialInv(cfg, deg, threads, s);
    StepsWithinWork(cfg, s0, h, run, s0.world);
    SumMonotone(Ranks(cfg, s0, h), Weights(cfg.out));
  }

  /** The vertices that the run takes out of the queue, in order. */
  ghost function Popped<S, R>(cfg: Config<S, R>, s: State<S, R>, run: seq<Action>): seq<nat>
    requires Legal(cfg, s, run)
    decreases |run|
  {
    if run == [] then []
    else
      var s' := Next(cfg, s, run[0]);
      (if run[0].Pop? && s'.workers[run[0].w].pc.Holding? then [s'.workers[run[0].w].pc.id] else [])
      + Popped(cfg, s', run[1..])
  }

  /** The vertices that the run puts into the queue, in order. */
  ghost function Pushed<S, R>(cfg: Config<S, R>, s: State<S, R>, run: seq<Action>): seq<nat>
    requires Legal(cfg, s, run)
    decreases |run|
  {
    if run == [] then []
    else
      (if run[0].Push? then [s.workers[run[0].w].pc.push.value] else [])
      + Pushed(cfg, Next(cfg, s, run[0]), run[1..])
  }

  /** First in, first out: what was in the queue and what was pushed is what was popped and what is left, in order. */
  lemma {:induction false} QueueIsFifo<S, R>(cfg: Config<S, R>, s: State<S, R>, run: seq<Action>)
    requires Legal(cfg, s, run)
    ensures s.queue + Pushed(cfg, s, run) == Popped(cfg, s, run) + After(cfg, s, run).queue
    decreases |run|
  {
    if run == [] {
    } else {
      var a, s' := run[0], Next(cfg, s, run[0]);
      var popped, pushed := Popped(cfg, s', run[1..]), Pushed(cfg, s', run[1..]);
      QueueIsFifo(cfg, s', run[1..]);
      assert [] + popped == popped && [] + pushed == pushed;
      if a.Pop? {
        assert s.queue == [s.queue[0]] + s'.queue;
        AppendAssoc([s.queue[0]], s'.queue, pushed);
        AppendAssoc([s.queue[0]], popped, After(cfg, s', run[1..]).queue);
      } else if a.Push? {
        AppendAssoc(s.queue, [s.workers[a.w].pc.push.value], pushed);
      }
    }
  }

  predicate Active(pc: Pc) {
    pc.Holding? || pc.Executing? || pc.Consuming?
  }

  /** Of the vertices below m that are not done the smallest one is queued or with a worker. */
  lemma {:induction false} SmallestNotWaiting<S, R>(cfg: Config<S, R>, s: State<S, R>, h: History, v: nat)
    requires cfg.Valid() && Shape(cfg, s, h) && Placed(s, h) && DegreesMatch(cfg, s, h)
    requires v < |cfg.out| && !h.place[v].Done?
    ensures s.queue != [] || exists w :: 0 <= w < |s.workers| && Active(s.workers[w].pc)
    decreases v
  {
    assert PlacedAt(s, h.place[v], v);
    match h.place[v]
    case Waiting =>
      InCountPositive(h.rest, v);
      var p :| 0 <= p < |h.rest| && v in h.rest[p];
      assert RestOf(cfg, s, h, p);
      assert v in cfg.out[p];
      SmallestNotWaiting(cfg, s, h, p);
    case Queued =>
    case HandedOff(w) => assert Active(s.workers[w].pc);
    case Released(w) => assert Active(s.workers[w].pc);
    case At(w) => assert Active(s.workers[w].pc);
  }

  /** While a transaction is unconsumed there is work in the queue or with a worker. */
  lemma NotStuck<S, R>(cfg: Config<S, R>, s: State<S, R>, h: History, w0: World<S, R>)
    requires cfg.Valid() && Inv(cfg, s, h, w0) && s.consumed < |cfg.out|
    ensures s.queue != [] || exists w :: 0 <= w < |s.workers| && Active(s.workers[w].pc)
  {
    FullSet(DoneSet(h.place), |cfg.out|);
    var v: nat :| v < |cfg.out| && v !in DoneSet(h.place);
    SmallestNotWaiting(cfg, s, h, v);
  }

  /** A worker that holds a vertex can always take its next step. */
  function NextAction<S, R>(cfg: Config<S, R>, s: State<S, R>, w: nat): Action
    requires w < |s.workers| && PcInRange(s.workers[w].pc, |cfg.out|)
  {
    match s.workers[w].pc
    case Outside => if s.flushed < |cfg.out| then Enter(w) else Exit(w)
    case Popping => if s.queue == [] then PopNone(w) else Pop(w)
    case Holding(_) => Start(w)
    case Executing(_) => Finish(w)
    case Consuming(id, k, _, push) =>
      if push.Some? then Push(w) else if k < |cfg.out[id]| then FetchSub(w) else Leave(w)
    case Flushing => Flush(w)
    case Exited => Exit(w)
  }

  /** Only a worker that has left has no step to take. */
  lemma NextActionEnabled<S, R>(cfg: Config<S, R>, s: State<S, R>, h: History, w: nat)
    requires cfg.Valid() && Shape(cfg, s, h) && w < |s.workers| && !s.workers[w].pc.Exited?
    ensures Enabled(cfg, s, NextAction(cfg, s, w))
    ensures Active(s.workers[w].pc) ==> Useful(NextAction(cfg, s, w))
  {
    var pc := s.workers[w].pc;
    if pc.Consuming? && pc.k < |cfg.out[pc.id]| {
      assert cfg.out[pc.id][pc.k] in cfg.out[pc.id];
    }
  }

  /** How many steps an idle worker is away from popping. */
  function Distance(pc: Pc): nat {
    if pc.Flushing? then 2 else if pc.Outside? then 1 else 0
  }

  /** flushed never runs ahead of consumed. */
  lemma {:induction false} BusyWithinLocal(workers: seq<Worker>)
    requires forall w :: 0 <= w < |workers| && Busy(workers[w].pc) ==> workers[w].cnt > 0
    ensures BusyCount(workers) <= Local(workers)
  {
    if workers == [] {
    } else {
      BusyWithinLocal(workers[1..]);
    }
  }

  /** Any reachable state leads on to one where everything is consumed, whatever the number of workers. */
  lemma {:induction false} CanConsumeAll<S, R>(cfg: Config<S, R>, s: State<S, R>, h: History, w0: World<S, R>)
    returns (run: seq<Action>, h': History)
    requires cfg.Valid() && Inv(cfg, s, h, w0) && |s.workers| > 0
    ensures Legal(cfg, s, run) && Inv(cfg, After(cfg, s, run), h', w0)
    ensures After(cfg, s, run).consumed >= |cfg.out|
    ensures |After(cfg, s, run).workers| == |s.workers|
    decreases Work(cfg, s, h), Distance(s.workers[0].pc)
  {
    if s.consumed >= |cfg.out| {
      run, h' := [], h;
    } else {
      NotStuck(cfg, s, h, w0);
      BusyWithinLocal(s.workers);
      var w := 0;
      if i :| 0 <= i < |s.workers| && Active(s.workers[i].pc) {
        w := i;
      }
      NextActionEnabled(cfg, s, h, w);
      var a := NextAction(cfg, s, w);
      WorkFalls(cfg, s, h, a);
      StepKeepsInv(cfg, s, h, a, w0);
      var rest;
      rest, h' := CanConsumeAll(cfg, Next(cfg, s, a), Noted(cfg, s, h, a), w0);
      run := [a] + rest;
      assert run[1..] == rest;
    }
  }

  /** How far an idle worker is from having left. */
  function Remaining(workers: seq<Worker>): nat {
    if workers == [] then 0
    else (match workers[0].pc
          case Popping => 3
          case Flushing => 2
          case Outside => 1
          case _ => 0) + Remaining(workers[1..])
  }

  lemma {:induction false} RemainingUpdate(workers: seq<Worker>, w: nat, x: Worker)
    requires w < |workers|
    ensures Remaining(workers[w := x]) == Remaining(workers) - Remaining([workers[w]]) + Remaining([x])
  {
    if w > 0 {
      RemainingUpdate(workers[1..], w - 1, x);
      assert workers[w := x][1..] == workers[1..][w - 1 := x];
    } else {
      assert workers[w := x][1..] == workers[1..];
    }
  }

  /** Once all is consumed, no worker is active and the queue is empty. */
  lemma AllConsumed<S, R>(cfg: Config<S, R>, s: State<S, R>, h: History, w0: World<S, R>)
    requires Inv(cfg, s, h, w0) && s.consumed >= |cfg.out|
    ensures s.consumed == |cfg.out| && s.queue == []
    ensures forall v: nat :: v < |cfg.out| ==> h.place[v].Done?
    ensures forall w :: 0 <= w < |s.workers| ==> !Active(s.workers[w].pc)
  {
    forall w | 0 <= w < |s.workers| && Active(s.workers[w].pc)
      ensures h.place[s.workers[w].pc.id].At?
    {
      var v := s.workers[w].pc.id;
      assert PlacedAt(s, h.place[v], v) && Holds(s.workers[w].pc, v);
    }
    assert s.queue != [] ==> PlacedAt(s, h.place[s.queue[0]], s.queue[0]);
    FullSet(DoneSet(h.place), |cfg.out|);
    forall v: nat | v < |cfg.out|
      ensures h.place[v].Done?
    {
      assert v in DoneSet(h.place);
    }
  }

  lemma {:induction false} NoLocalCounts(workers: seq<Worker>)
    requires forall w :: 0 <= w < |workers| ==> workers[w].cnt == 0 && !Busy(workers[w].pc)
    ensures Local(workers) == 0 && BusyCount(workers) == 0
  {
    if workers == [] {
    } else {
      NoLocalCounts(workers[1..]);
    }
  }

  lemma {:induction false} RemainingBound(workers: seq<Worker>)
    ensures Remaining(workers) <= 3 * |workers|
  {
    if workers == [] {
    } else {
      RemainingBound(workers[1..]);
    }
  }

  /** Once hasFinished holds, a worker takes at most three more steps: it finds nothing, flushes and leaves. */
  lemma {:induction false} FinishedRunsEnd<S, R>(
      cfg: Config<S, R>, s: State<S, R>, h: History, run: seq<Action>, w0: World<S, R>)
    requires cfg.Valid() && Legal(cfg, s, run) && Inv(cfg, s, h, w0) && s.flushed >= |cfg.out|
    ensures |run| <= Remaining(s.workers) <= 3 * |s.workers|
    decreases |run|
  {
    RemainingBound(s.workers);
    if run == [] {
    } else {
      var a := run[0];
      BusyWithinLocal(s.workers);
      AllConsumed(cfg, s, h, w0);
      assert !Active(s.workers[a.w].pc);
      RemainingUpdate(s.workers, a.w, Next(cfg, s, a).workers[a.w]);
      StepKeepsInv(cfg, s, h, a, w0);
      FinishedRunsEnd(cfg, Next(cfg, s, a), Noted(cfg, s, h, a), run[1..], w0);
    }
  }

  /** hasFinished holds for the last worker to flush, so all workers leave. */
  lemma {:induction false} CanLeave<S, R>(cfg: Config<S, R>, s: State<S, R>, h: History, w0: World<S, R>)
    returns (run: seq<Action>)
    requires cfg.Valid() && Inv(cfg, s, h, w0) && s.consumed >= |cfg.out|
    ensures Legal(cfg, s, run)
    ensures forall w :: 0 <= w < |After(cfg, s, run).workers| ==> After(cfg, s, run).workers[w].pc.Exited?
    decreases Remaining(s.workers)
  {
    AllConsumed(cfg, s, h, w0);
    if w :| 0 <= w < |s.workers| && !s.workers[w].pc.Exited?
            && (s.workers[w].pc.Outside? ==>
                  forall i :: 0 <= i < |s.workers| ==> s.workers[i].pc.Outside? || s.workers[i].pc.Exited?)
    {
      if s.workers[w].pc.Outside? {
        NoLocalCounts(s.workers);
      }
      NextActionEnabled(cfg, s, h, w);
      var a := NextAction(cfg, s, w);
      RemainingUpdate(s.workers, w, Next(cfg, s, a).workers[w]);
      StepKeepsInv(cfg, s, h, a, w0);
      var rest := CanLeave(cfg, Next(cfg, s, a), Noted(cfg, s, h, a), w0);
      run := [a] + rest;
      assert run[1..] == rest;
    } else {
      run := [];
      if w :| 0 <= w < |s.workers| && !s.workers[w].pc.Exited? {
        assert false;
      }
    }
  }
}
