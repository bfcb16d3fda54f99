/**
  The worker threads of parallelExecuteBlock as a step machine. Every worker
  loops over TxDAG::executeUnit; every access to shared data (a pop, a push, a
  fetch_sub, the counters) is one step, and the steps of the workers interleave
  in any order. Executing a transaction is a function on the world.
 */
module Scheduler {
  import opened Prelude
  import opened TxDag

  /** The shared state of the executor, and the receipts of the block by transaction index. */
  datatype World<S, R> = World(state: S, receipts: seq<Option<R>>)

  /** The graph, and what executing transaction i does: a new state and a receipt. */
  datatype Config<!S, !R> = Config(out: seq<seq<nat>>, exec: (nat, S) -> (S, R)) {
    ghost predicate Valid() {
      forall p: nat, t :: p < |out| && t in out[p] ==> p < t < |out|
    }
  }

  /** Where a worker stands. k is the position in the out-edge vector of the vertex it consumes. */
  datatype Pc =
    | Outside
    | Popping
    | Holding(id: nat)
    | Executing(id: nat)
    | Consuming(id: nat, k: nat, next: Option<nat>, push: Option<nat>)
    | Flushing
    | Exited

  /** cnt is the local exeCnt of executeUnit. */
  datatype Worker = Worker(pc: Pc, cnt: nat)

  datatype State<S, R> = State(
    deg: seq<nat>,
    queue: seq<nat>,
    consumed: nat,
    flushed: nat,
    workers: seq<Worker>,
    world: World<S, R>)

  datatype Action =
    | Enter(w: nat)     // hasFinished is false: call executeUnit
    | Exit(w: nat)      // hasFinished is true: leave the loop
    | Pop(w: nat)       // waitPop takes the front of the queue
    | PopNone(w: nat)   // waitPop finds the queue empty and gives up
    | Start(w: nat)     // count the execution and begin it
    | Finish(w: nat)    // the transaction has taken effect
    | FetchSub(w: nat)  // one turn of the out-edge loop of consume
    | Push(w: nat)      // queue a second or later released successor
    | Leave(w: nat)     // count the consumption and return the handed-off successor
    | Flush(w: nat)     // add the local count to the shared one

  function Apply<S, R>(cfg: Config<S, R>, world: World<S, R>, id: nat): World<S, R> {
    var (state, receipt) := cfg.exec(id, world.state);
    World(state, if id < |world.receipts| then world.receipts[id := Some(receipt)] else world.receipts)
  }

  function Initial<S, R>(cfg: Config<S, R>, deg: seq<nat>, threads: nat, s: S): State<S, R> {
    State(deg, Ready(deg, |deg|), 0, 0, seq(threads, _ => Worker(Outside, 0)), World(s, seq(|cfg.out|, _ => None)))
  }

  predicate Enabled<S, R>(cfg: Config<S, R>, s: State<S, R>, a: Action) {
    && a.w < |s.workers|
    && var pc := s.workers[a.w].pc;
       match a
       case Enter(_) => pc.Outside? && s.flushed < |cfg.out|
       case Exit(_) => pc.Outside? && s.flushed >= |cfg.out|
       case Pop(_) => pc.Popping? && s.queue != []
       case PopNone(_) => pc.Popping? && s.queue == []
       case Start(_) => pc.Holding?
       case Finish(_) => pc.Executing?
       case FetchSub(_) =>
         && pc.Consuming? && pc.push.None?
         && pc.id < |cfg.out| && pc.k < |cfg.out[pc.id]| && cfg.out[pc.id][pc.k] < |s.deg|
       case Push(_) => pc.Consuming? && pc.push.Some?
       case Leave(_) => pc.Consuming? && pc.push.None? && pc.id < |cfg.out| && pc.k >= |cfg.out[pc.id]|
       case Flush(_) => pc.Flushing?
  }

  function Goto<S, R>(s: State<S, R>, w: nat, pc: Pc): State<S, R>
    requires w < |s.workers|
  {
    s.(workers := s.workers[w := s.workers[w].(pc := pc)])
  }

  function Next<S, R>(cfg: Config<S, R>, s: State<S, R>, a: Action): State<S, R>
    requires Enabled(cfg, s, a)
  {
    var w := a.w;
    var me := s.workers[w];
    match a
    case Enter(_) => Goto(s, w, Popping)
    case Exit(_) => Goto(s, w, Exited)
    case Pop(_) => Goto(s, w, Holding(s.queue[0])).(queue := s.queue[1..])
    case PopNone(_) => Goto(s, w, Flushing)
    case Start(_) => s.(workers := s.workers[w := Worker(Executing(me.pc.id), me.cnt + 1)])
    case Finish(_) =>
      Goto(s, w, Consuming(me.pc.id, 0, None, None)).(world := Apply(cfg, s.world, me.pc.id))
    case FetchSub(_) =>
      var t := cfg.out[me.pc.id][me.pc.k];
      var pc := me.pc.(k := me.pc.k + 1);
      Goto(s, w, if s.deg[t] != 1 then pc
                 else if pc.next.None? then pc.(next := Some(t))
                 else pc.(push := Some(t))).(deg := s.deg[t := Decrement(s.deg[t])])
    case Push(_) => Goto(s, w, me.pc.(push := None)).(queue := s.queue + [me.pc.push.value])
    case Leave(_) =>
      Goto(s, w, if me.pc.next.Some? then Holding(me.pc.next.value) else Popping).(consumed := s.consumed + 1)
    case Flush(_) => s.(workers := s.workers[w := Worker(Outside, 0)], flushed := s.flushed + me.cnt)
  }

  /** The actions can be taken one after the other from s. */
  predicate Legal<S, R>(cfg: Config<S, R>, s: State<S, R>, run: seq<Action>)
    decreases |run|
  {
    run == [] || (Enabled(cfg, s, run[0]) && Legal(cfg, Next(cfg, s, run[0]), run[1..]))
  }

  function After<S, R>(cfg: Config<S, R>, s: State<S, R>, run: seq<Action>): State<S, R>
    requires Legal(cfg, s, run)
    decreases |run|
  {
    if run == [] then s else After(cfg, Next(cfg, s, run[0]), run[1..])
  }

  /** The transactions in the order of log, one after the other. */
  function RunInOrder<S, R>(cfg: Config<S, R>, world: World<S, R>, log: seq<nat>): World<S, R> {
    if log == [] then world else Apply(cfg, RunInOrder(cfg, world, log[..|log| - 1]), log[|log| - 1])
  }
}
