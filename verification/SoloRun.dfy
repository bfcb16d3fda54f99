/**
  One worker moving alone. While no other worker stands in the way of what it
  needs, it reaches any vertex that is not taken yet, and it can stop at the
  end of an out-edge loop, before it hands its vertex over.
 */
module SoloRun {
  import opened EdgeCounts
  import opened Scheduler
  import opened SchedulerInvariant
  import opened SchedulerProgress

  /** Only worker w has moved. */
  predicate Alone(before: seq<Worker>, after: seq<Worker>, w: nat) {
    |after| == |before| && forall x :: 0 <= x < |before| && x != w ==> after[x] == before[x]
  }

  predicate Untaken(place: Place) {
    !place.At? && !place.Done?
  }

  /** The worker at pc keeps vertex v to itself. */
  predicate Keeps(pc: Pc, v: nat) {
    Holds(pc, v) || Offers(pc, v) || Releases(pc, v)
  }

  /** No worker but w keeps a needed vertex, and all that a needed vertex still waits for is needed. */
  ghost predicate Clear<S, R>(s: State<S, R>, h: History, w: nat, need: set<nat>) {
    && (forall x: nat, v :: x < |s.workers| && x != w && v in need ==> !Keeps(s.workers[x].pc, v))
    && (forall p: nat, v :: p < |h.rest| && v in need && v in h.rest[p] ==> p in need)
  }

  lemma ClearStep<S, R>(cfg: Config<S, R>, s: State<S, R>, h: History, a: Action, need: set<nat>)
    requires Enabled(cfg, s, a) && Shape(cfg, s, h) && Clear(s, h, a.w, need)
    ensures Alone(s.workers, Next(cfg, s, a).workers, a.w)
    ensures Clear(Next(cfg, s, a), Noted(cfg, s, h, a), a.w, need)
  {
    var rest, rest' := h.rest, Noted(cfg, s, h, a).rest;
    forall p: nat, v | p < |rest'| && v in need && v in rest'[p]
      ensures p in need
    {
      assert v in rest[p];
    }
  }

  /** A step of a worker takes a vertex only by holding it. */
  lemma UntakenStep<S, R>(cfg: Config<S, R>, s: State<S, R>, h: History, a: Action, v: nat)
    requires Enabled(cfg, s, a) && Shape(cfg, s, h) && Placed(s, h) && v < |h.place| && Untaken(h.place[v])
    ensures Untaken(Noted(cfg, s, h, a).place[v]) || Next(cfg, s, a).workers[a.w].pc == Holding(v)
  {
    var pc := s.workers[a.w].pc;
    if a.Leave? {
      assert PlacedAt(s, h.place[pc.id], pc.id) && Holds(pc, pc.id);
    }
  }

  lemma NotFinished<S, R>(cfg: Config<S, R>, s: State<S, R>, h: History, w0: World<S, R>, v: nat)
    requires Inv(cfg, s, h, w0) && v < |cfg.out| && !h.place[v].Done?
    ensures s.flushed < |cfg.out|
  {
    BusyWithinLocal(s.workers);
    if s.flushed >= |cfg.out| {
      AllConsumed(cfg, s, h, w0);
    }
  }

  /** An idle worker finds a vertex to pop while something it needs is not taken. */
  lemma {:induction false} QueueServes<S, R>(
      cfg: Config<S, R>, s: State<S, R>, h: History, w: nat, need: set<nat>, v: nat)
    requires cfg.Valid() && Shape(cfg, s, h) && Placed(s, h) && DegreesMatch(cfg, s, h)
    requires w < |s.workers| && !Active(s.workers[w].pc) && Clear(s, h, w, need)
    requires v in need && v < |cfg.out| && !h.place[v].Done?
    ensures s.queue != []
    decreases v
  {
    assert PlacedAt(s, h.place[v], v);
    match h.place[v]
    case Waiting =>
      InCountPositive(h.rest, v);
      var p: nat :| p < |h.rest| && v in h.rest[p];
      assert RestOf(cfg, s, h, p);
      assert v in cfg.out[p];
      QueueServes(cfg, s, h, w, need, p);
    case Queued =>
    case HandedOff(x) => assert Keeps(s.workers[x].pc, v);
    case Released(x) => assert Keeps(s.workers[x].pc, v);
    case At(x) => assert Keeps(s.workers[x].pc, v);
  }

  /** The next step of worker w, when it is on its way to an untaken vertex v. */
  lemma SoloStep<S, R>(
      cfg: Config<S, R>, s: State<S, R>, h: History, w0: World<S, R>, w: nat, need: set<nat>, v: nat)
    returns (a: Action)
    requires cfg.Valid() && Inv(cfg, s, h, w0) && w < |s.workers| && Clear(s, h, w, need)
    requires v in need && v < |cfg.out| && Untaken(h.place[v])
    ensures a.w == w && Enabled(cfg, s, a) && Inv(cfg, Next(cfg, s, a), Noted(cfg, s, h, a), w0)
    ensures Alone(s.workers, Next(cfg, s, a).workers, w)
    ensures Clear(Next(cfg, s, a), Noted(cfg, s, h, a), w, need)
    ensures var s', h' := Next(cfg, s, a), Noted(cfg, s, h, a);
            || Work(cfg, s', h') < Work(cfg, s, h)
            || (Work(cfg, s', h') == Work(cfg, s, h) && Distance(s'.workers[w].pc) < Distance(s.workers[w].pc))
  {
    NotFinished(cfg, s, h, w0, v);
    if !Active(s.workers[w].pc) {
      QueueServes(cfg, s, h, w, need, v);
    }
    NextActionEnabled(cfg, s, h, w);
    a := NextAction(cfg, s, w);
    WorkFalls(cfg, s, h, a);
    StepKeepsInv(cfg, s, h, a, w0);
    ClearStep(cfg, s, h, a, need);
  }

  /** Worker w reaches one of the goals, and takes none of the others on its way. */
  lemma {:induction false} SoloReach<S, R>(
      cfg: Config<S, R>, s: State<S, R>, h: History, w0: World<S, R>, w: nat, need: set<nat>, goals: set<nat>)
    returns (run: seq<Action>, h': History, g: nat)
    requires cfg.Valid() && Inv(cfg, s, h, w0) && w < |s.workers| && Clear(s, h, w, need)
    requires goals != {} && goals <= need
    requires forall v :: v in goals ==> v < |cfg.out| && Untaken(h.place[v])
    ensures Legal(cfg, s, run) && Inv(cfg, After(cfg, s, run), h', w0)
    ensures Alone(s.workers, After(cfg, s, run).workers, w)
    ensures g in goals && After(cfg, s, run).workers[w].pc == Holding(g)
    ensures forall v :: v in goals && v != g ==> Untaken(h'.place[v])
    decreases Work(cfg, s, h), Distance(s.workers[w].pc)
  {
    var v :| v in goals;
    var a := SoloStep(cfg, s, h, w0, w, need, v);
    var s1, h1 := Next(cfg, s, a), Noted(cfg, s, h, a);
    forall u | u in goals
      ensures Untaken(h1.place[u]) || s1.workers[w].pc == Holding(u)
    {
      UntakenStep(cfg, s, h, a, u);
    }
    var rest: seq<Action>;
    if s1.workers[w].pc.Holding? && s1.workers[w].pc.id in goals {
      rest, h', g := [], h1, s1.workers[w].pc.id;
    } else {
      rest, h', g := SoloReach(cfg, s1, h1, w0, w, need, goals);
    }
    run := [a] + rest;
    assert run[1..] == rest;
  }

  /** Worker w stands at the end of its out-edge loop. */
  predicate Lingers<S, R>(cfg: Config<S, R>, pc: Pc) {
    pc.Consuming? && pc.push.None? && pc.id < |cfg.out| && pc.k >= |cfg.out[pc.id]|
  }

  lemma LingerStep<S, R>(cfg: Config<S, R>, s: State<S, R>, h: History, w0: World<S, R>, w: nat)
    returns (a: Action)
    requires cfg.Valid() && Inv(cfg, s, h, w0) && w < |s.workers| && Active(s.workers[w].pc)
    requires !Lingers(cfg, s.workers[w].pc)
    ensures Enabled(cfg, s, a) && Inv(cfg, Next(cfg, s, a), Noted(cfg, s, h, a), w0)
    ensures Work(cfg, Next(cfg, s, a), Noted(cfg, s, h, a)) < Work(cfg, s, h)
    ensures Alone(s.workers, Next(cfg, s, a).workers, w)
    ensures Active(Next(cfg, s, a).workers[w].pc) && Next(cfg, s, a).workers[w].pc.id == s.workers[w].pc.id
    ensures forall v: nat :: v < |cfg.out| && Untaken(h.place[v]) ==> Untaken(Noted(cfg, s, h, a).place[v])
  {
    NextActionEnabled(cfg, s, h, w);
    a := NextAction(cfg, s, w);
    WorkFalls(cfg, s, h, a);
    StepKeepsInv(cfg, s, h, a, w0);
    forall v: nat | v < |cfg.out| && Untaken(h.place[v])
      ensures Untaken(Noted(cfg, s, h, a).place[v])
    {
      UntakenStep(cfg, s, h, a, v);
    }
  }

  /** Worker w executes its vertex and goes through all its out-edges, without leaving consume. */
  lemma {:induction false} Linger<S, R>(cfg: Config<S, R>, s: State<S, R>, h: History, w0: World<S, R>, w: nat)
    returns (run: seq<Action>, h': History)
    requires cfg.Valid() && Inv(cfg, s, h, w0) && w < |s.workers| && Active(s.workers[w].pc)
    ensures Legal(cfg, s, run) && Inv(cfg, After(cfg, s, run), h', w0)
    ensures Alone(s.workers, After(cfg, s, run).workers, w)
    ensures Lingers(cfg, After(cfg, s, run).workers[w].pc)
    ensures After(cfg, s, run).workers[w].pc.id == s.workers[w].pc.id
    ensures forall v: nat :: v < |cfg.out| && Untaken(h.place[v]) ==> Untaken(h'.place[v])
    decreases Work(cfg, s, h)
  {
    if Lingers(cfg, s.workers[w].pc) {
      run, h' := [], h;
    } else {
      var a := LingerStep(cfg, s, h, w0, w);
      var rest;
      rest, h' := Linger(cfg, Next(cfg, s, a), Noted(cfg, s, h, a), w0, w);
      run := [a] + rest;
      assert run[1..] == rest;
    }
  }
}
