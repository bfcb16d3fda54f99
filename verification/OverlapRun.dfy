/**
  Runs of two workers in which a transaction is taken while a predecessor of it
  is still in consume: one such run for each join of the graph, and one for
  each transaction that frees two others.
 */
module OverlapRun {
  import opened Prelude
  import opened Conflicts
  import opened Branching
  import opened EdgeCounts
  import opened TxDag
  import opened Scheduler
  import opened SchedulerInvariant
  import opened Serializability
  import opened ParallelExecution
  import opened SoloRun

  /** What a released vertex depends on, directly or not, has taken effect. */
  lemma AncestorExecuted<K(!new), S, R>(
      cfg: Config<S, R>, cs: seq<Criticals<K>>, s: State<S, R>, h: History, w0: World<S, R>, a: nat, t: nat)
    requires cfg.out == OutEdges(cs, |cs|) && Inv(cfg, s, h, w0) && Path(cs, a, t)
    requires t < |cs| && !h.place[t].Waiting?
    ensures a < |cs| && Executed(s, h, a)
  {
    var p := LastStep(cs, a, t);
    OutEdgesAreEdges(cs, p, t);
    PredecessorsExecuted(cfg, s, h, p, t);
    if a != p {
      assert p in h.log;
      var q: nat :| q < |h.log| && h.log[q] == p;
      LogFollowsPaths(cs, h.log, a, p, q);
      assert a in h.log;
    }
  }

  /** What a worker in consume hands over or pushes is a successor of its vertex. */
  predicate OffersEdge<S, R>(cfg: Config<S, R>, pc: Pc) {
    pc.Consuming? && pc.id < |cfg.out| ==>
      && (pc.next.Some? ==> pc.next.value in cfg.out[pc.id])
      && (pc.push.Some? ==> pc.push.value in cfg.out[pc.id])
  }

  lemma {:induction false} RunOffersEdges<S, R>(cfg: Config<S, R>, s: State<S, R>, run: seq<Action>)
    requires Legal(cfg, s, run) && forall w :: 0 <= w < |s.workers| ==> OffersEdge(cfg, s.workers[w].pc)
    ensures forall w :: 0 <= w < |After(cfg, s, run).workers| ==> OffersEdge(cfg, After(cfg, s, run).workers[w].pc)
    decreases |run|
  {
    if run == [] {
    } else {
      RunOffersEdges(cfg, Next(cfg, s, run[0]), run[1..]);
    }
  }

  /** A state that the workers reach, and its history. */
  ghost predicate Reached<K(!new), S, R>(
      cfg: Config<S, R>, cs: seq<Criticals<K>>, deg: seq<nat>, threads: nat, s: S,
      run: seq<Action>, f: State<S, R>, h: History)
  {
    && Run(cfg, cs, deg, threads, s, run) && f == End(cfg, cs, deg, threads, s, run)
    && Inv(cfg, f, h, Initial(cfg, deg, threads, s).world)
  }

  lemma ReachedFurther<K(!new), S, R>(
      cfg: Config<S, R>, cs: seq<Criticals<K>>, deg: seq<nat>, threads: nat, s: S,
      run: seq<Action>, f: State<S, R>, h: History, more: seq<Action>, h': History)
    requires Reached(cfg, cs, deg, threads, s, run, f, h) && Legal(cfg, f, more)
    requires Inv(cfg, After(cfg, f, more), h', Initial(cfg, deg, threads, s).world)
    ensures Reached(cfg, cs, deg, threads, s, run + more, After(cfg, f, more), h')
  {
    AfterJoin(cfg, Initial(cfg, deg, threads, s), run, more);
  }

  /** SoloReach, as the continuation of a run from the start. */
  lemma ThenReach<K(!new), S, R>(
      cfg: Config<S, R>, cs: seq<Criticals<K>>, deg: seq<nat>, threads: nat, s: S,
      run: seq<Action>, f: State<S, R>, h: History, w: nat, need: set<nat>, goals: set<nat>)
    returns (run': seq<Action>, f': State<S, R>, h': History, g: nat)
    requires Reached(cfg, cs, deg, threads, s, run, f, h) && w < |f.workers| && Clear(f, h, w, need)
    requires goals != {} && goals <= need && forall v :: v in goals ==> v < |cs| && Untaken(h.place[v])
    ensures Reached(cfg, cs, deg, threads, s, run', f', h') && Alone(f.workers, f'.workers, w)
    ensures g in goals && f'.workers[w].pc == Holding(g)
    ensures forall v :: v in goals && v != g ==> Untaken(h'.place[v])
  {
    PreparedValid(cfg, cs, deg);
    var more;
    more, h', g := SoloReach(cfg, f, h, Initial(cfg, deg, threads, s).world, w, need, goals);
    ReachedFurther(cfg, cs, deg, threads, s, run, f, h, more, h');
    run', f' := run + more, After(cfg, f, more);
  }

  /** Linger, as the continuation of a run from the start. */
  lemma ThenLinger<K(!new), S, R>(
      cfg: Config<S, R>, cs: seq<Criticals<K>>, deg: seq<nat>, threads: nat, s: S,
      run: seq<Action>, f: State<S, R>, h: History, w: nat)
    returns (run': seq<Action>, f': State<S, R>, h': History)
    requires Reached(cfg, cs, deg, threads, s, run, f, h) && w < |f.workers| && f.workers[w].pc.Holding?
    ensures Reached(cfg, cs, deg, threads, s, run', f', h') && Alone(f.workers, f'.workers, w)
    ensures Lingers(cfg, f'.workers[w].pc) && OffersEdge(cfg, f'.workers[w].pc)
    ensures f'.workers[w].pc.id == f.workers[w].pc.id
    ensures forall v: nat :: v < |cs| && Untaken(h.place[v]) ==> Untaken(h'.place[v])
  {
    PreparedValid(cfg, cs, deg);
    var more;
    more, h' := Linger(cfg, f, h, Initial(cfg, deg, threads, s).world, w);
    ReachedFurther(cfg, cs, deg, threads, s, run, f, h, more, h');
    run', f' := run + more, After(cfg, f, more);
    RunOffersEdges(cfg, Initial(cfg, deg, threads, s), run');
  }

  /** All workers but v and w have not begun. */
  ghost predicate OthersOut(workers: seq<Worker>, v: nat, w: nat) {
    forall u :: 0 <= u < |workers| && u != v && u != w ==> workers[u].pc.Outside?
  }

  /** From the start, worker 0 takes the first of the goals while the others stay out. */
  lemma FirstTaken<K(!new), S, R>(
      cfg: Config<S, R>, cs: seq<Criticals<K>>, deg: seq<nat>, threads: nat, s: S, goals: set<nat>)
    returns (run: seq<Action>, f: State<S, R>, h: History, g: nat)
    requires Prepared(cfg, cs, deg) && threads >= 2 && goals != {} && forall v :: v in goals ==> v < |cs|
    ensures Reached(cfg, cs, deg, threads, s, run, f, h) && |f.workers| == threads
    ensures g in goals && f.workers[0].pc == Holding(g)
    ensures OthersOut(f.workers, 0, 0)
    ensures forall v :: v in goals && v != g ==> Untaken(h.place[v])
  {
    var s0 := Initial(cfg, deg, threads, s);
    PreparedValid(cfg, cs, deg);
    InitialInv(cfg, deg, threads, s);
    assert Reached(cfg, cs, deg, threads, s, [], s0, Start0(cfg, deg));
    run, f, h, g := ThenReach(cfg, cs, deg, threads, s, [], s0, Start0(cfg, deg), 0, Below(|cs|), goals);
  }

  /** All that v waits for, v included. */
  ghost function Up<K(!new)>(cs: seq<Criticals<K>>, v: nat): set<nat> {
    set u: nat | u < |cs| && Reaches(cs, u, v)
  }

  lemma RestIsEdges<K(!new), S, R>(cfg: Config<S, R>, cs: seq<Criticals<K>>, f: State<S, R>, h: History, p: nat, v: nat)
    requires cfg.out == OutEdges(cs, |cs|) && Shape(cfg, f, h) && DegreesMatch(cfg, f, h)
    requires p < |h.rest| && v in h.rest[p]
    ensures Edge(cs, p, v) && v < |cs|
  {
    assert RestOf(cfg, f, h, p);
    assert v in cfg.out[p];
    OutEdgesAreEdges(cs, p, v);
  }

  /** A worker that holds a vertex unrelated to v is not in the way of v. */
  lemma ClearAside<K(!new), S, R>(
      cfg: Config<S, R>, cs: seq<Criticals<K>>, f: State<S, R>, h: History, w0: World<S, R>, u: nat, v: nat)
    requires cfg.out == OutEdges(cs, |cs|) && Inv(cfg, f, h, w0) && |f.workers| >= 2 && !Reaches(cs, u, v) && v < |cs|
    requires f.workers[0].pc == Holding(u) && OthersOut(f.workers, 0, 0)
    ensures Clear(f, h, 1, Up(cs, v))
  {
    forall p: nat, t | p < |h.rest| && t in Up(cs, v) && t in h.rest[p]
      ensures p in Up(cs, v)
    {
      RestIsEdges(cfg, cs, f, h, p, t);
      PathReaches(cs, p, t, v);
    }
  }

  /** With two unordered vertices in sight, two workers come to hold one each. */
  lemma BothHeld<K(!new), S, R>(
      cfg: Config<S, R>, cs: seq<Criticals<K>>, deg: seq<nat>, threads: nat, s: S, x: nat, y: nat)
    returns (run: seq<Action>, f: State<S, R>, h: History, v: nat, w: nat)
    requires Prepared(cfg, cs, deg) && threads >= 2 && y < x < |cs| && !Path(cs, y, x)
    ensures Reached(cfg, cs, deg, threads, s, run, f, h) && v < |f.workers| && w < |f.workers| && v != w
    ensures f.workers[v].pc == Holding(x) && f.workers[w].pc == Holding(y)
    ensures OthersOut(f.workers, v, w)
  {
    var first, f1, h1, g;
    run, f1, h1, first := FirstTaken(cfg, cs, deg, threads, s, {x, y});
    var other := if first == x then y else x;
    if Path(cs, x, y) {
      PathForward(cs, x, y);
    }
    ClearAside(cfg, cs, f1, h1, Initial(cfg, deg, threads, s).world, first, other);
    run, f, h, g := ThenReach(cfg, cs, deg, threads, s, run, f1, h1, 1, Up(cs, other), {other});
    v, w := if first == x then 0 else 1, if first == x then 1 else 0;
  }

  /** What a worker in consume with the last predecessor of j hands over is not needed for j. */
  lemma OfferedBefore<K(!new), S, R>(
      cfg: Config<S, R>, cs: seq<Criticals<K>>, f: State<S, R>, h: History, x: nat, y: nat, j: nat, z: nat, v: nat)
    requires cfg.out == OutEdges(cs, |cs|) && Shape(cfg, f, h) && Placed(f, h) && Join(cs, x, y, j)
    requires h.place[j].Waiting? && v < |f.workers| && Offers(f.workers[v].pc, z) && z in cfg.out[x]
    ensures !Reaches(cs, z, j)
  {
    OutEdgesAreEdges(cs, x, z);
    assert PlacedAt(f, h.place[z], z);
    if Path(cs, z, j) {
      var p := LastStep(cs, z, j);
    }
  }

  /** A worker at the end of the out-edge loop of x, the last predecessor of j, is not in the way of j. */
  lemma ClearBeyond<K(!new), S, R>(
      cfg: Config<S, R>, cs: seq<Criticals<K>>, f: State<S, R>, h: History, w0: World<S, R>,
      x: nat, y: nat, j: nat, v: nat, w: nat)
    returns (need: set<nat>)
    requires cfg.out == OutEdges(cs, |cs|) && Inv(cfg, f, h, w0) && Join(cs, x, y, j) && h.place[j].Waiting?
    requires v < |f.workers| && w < |f.workers| && OthersOut(f.workers, v, w)
    requires Lingers(cfg, f.workers[v].pc) && OffersEdge(cfg, f.workers[v].pc) && f.workers[v].pc.id == x
    ensures j in need && Clear(f, h, w, need)
  {
    var pc := f.workers[v].pc;
    need := Up(cs, j) - {x};
    assert PlacedAt(f, h.place[x], x) && Holds(pc, x) && RestOf(cfg, f, h, x);
    forall p: nat, t | p < |h.rest| && t in need && t in h.rest[p]
      ensures p in need
    {
      RestIsEdges(cfg, cs, f, h, p, t);
      PathReaches(cs, p, t, j);
    }
    if pc.next.Some? && pc.next.value in need {
      OfferedBefore(cfg, cs, f, h, x, y, j, pc.next.value, v);
    }
  }

  lemma WaitsForHeld<K(!new), S, R>(
      cfg: Config<S, R>, cs: seq<Criticals<K>>, f: State<S, R>, h: History, w: nat, i: nat, x: nat)
    requires cfg.out == OutEdges(cs, |cs|) && Shape(cfg, f, h) && Placed(f, h) && DegreesMatch(cfg, f, h)
    requires Edge(cs, i, x) && i < x < |cs| && w < |f.workers| && f.workers[w].pc == Holding(i)
    ensures h.place[x].Waiting?
  {
    assert PlacedAt(f, h.place[i], i) && Holds(f.workers[w].pc, i);
    OutEdgesAreEdges(cs, i, x);
    if !h.place[x].Waiting? {
      PredecessorsExecuted(cfg, f, h, i, x);
    }
  }

  /** While worker v stays at the end of the out-edge loop of x, worker w comes to hold j. */
  lemma JoinTaken<K(!new), S, R>(
      cfg: Config<S, R>, cs: seq<Criticals<K>>, deg: seq<nat>, threads: nat, s: S, x: nat, y: nat, j: nat,
      run: seq<Action>, f: State<S, R>, h: History, v: nat, w: nat)
    returns (run': seq<Action>)
    requires Join(cs, x, y, j) && Reached(cfg, cs, deg, threads, s, run, f, h)
    requires v < |f.workers| && w < |f.workers| && OthersOut(f.workers, v, w)
    requires Lingers(cfg, f.workers[v].pc) && OffersEdge(cfg, f.workers[v].pc) && f.workers[v].pc.id == x
    requires f.workers[w].pc == Holding(y)
    ensures Run(cfg, cs, deg, threads, s, run')
    ensures var f' := End(cfg, cs, deg, threads, s, run');
            |f'.workers| == |f.workers| && Holds(f'.workers[v].pc, x) && Holds(f'.workers[w].pc, j)
  {
    WaitsForHeld(cfg, cs, f, h, w, y, j);
    var need := ClearBeyond(cfg, cs, f, h, Initial(cfg, deg, threads, s).world, x, y, j, v, w);
    var f', h', g;
    run', f', h', g := ThenReach(cfg, cs, deg, threads, s, run, f, h, w, need, {j});
    assert f'.workers[v] == f.workers[v];
  }

  /** At a join, j is taken by one worker while the other is still in consume with x. */
  lemma JoinRun<K(!new), S, R>(
      cfg: Config<S, R>, cs: seq<Criticals<K>>, deg: seq<nat>, threads: nat, s: S, x: nat, y: nat, j: nat)
    returns (run: seq<Action>, v: nat, w: nat)
    requires Prepared(cfg, cs, deg) && threads >= 2 && Join(cs, x, y, j)
    ensures Run(cfg, cs, deg, threads, s, run)
    ensures var f := End(cfg, cs, deg, threads, s, run);
            v < |f.workers| && w < |f.workers| && Holds(f.workers[v].pc, x) && Holds(f.workers[w].pc, j)
  {
    var f, h, f', h';
    run, f, h, v, w := BothHeld(cfg, cs, deg, threads, s, x, y);
    run, f', h' := ThenLinger(cfg, cs, deg, threads, s, run, f, h, v);
    run := JoinTaken(cfg, cs, deg, threads, s, x, y, j, run, f', h', v, w);
  }

  /** Once worker 0 has gone through the out-edges of i, no edge to what i frees is left. */
  lemma FreedBy<K(!new), S, R>(
      cfg: Config<S, R>, cs: seq<Criticals<K>>, f: State<S, R>, h: History, w0: World<S, R>, i: nat, x: nat, p: nat)
    requires cfg.out == OutEdges(cs, |cs|) && Inv(cfg, f, h, w0) && Frees(cs, i, x) && p < |h.rest|
    requires f.workers != [] && Lingers(cfg, f.workers[0].pc) && f.workers[0].pc.id == i
    requires OthersOut(f.workers, 0, 0)
    ensures x !in h.rest[p]
  {
    assert PlacedAt(f, h.place[i], i) && Holds(f.workers[0].pc, i) && PlacedAt(f, h.place[p], p);
    assert RestOf(cfg, f, h, p);
    if x in h.rest[p] && p != i {
      RestIsEdges(cfg, cs, f, h, p, x);
      AncestorExecuted(cfg, cs, f, h, w0, p, i);
    }
  }

  lemma FreedReleased<K(!new), S, R>(
      cfg: Config<S, R>, cs: seq<Criticals<K>>, f: State<S, R>, h: History, w0: World<S, R>, i: nat, x: nat)
    requires cfg.out == OutEdges(cs, |cs|) && Inv(cfg, f, h, w0) && Frees(cs, i, x) && x < |cs|
    requires f.workers != [] && Lingers(cfg, f.workers[0].pc) && f.workers[0].pc.id == i
    requires OthersOut(f.workers, 0, 0)
    ensures !h.place[x].Waiting? && forall p: nat :: p < |h.rest| ==> x !in h.rest[p]
  {
    forall p: nat | p < |h.rest|
      ensures x !in h.rest[p]
    {
      FreedBy(cfg, cs, f, h, w0, i, x, p);
    }
    InCountPositive(h.rest, x);
    assert PlacedAt(f, h.place[x], x);
  }

  /** While worker 0 stays at the end of the out-edge loop of i, worker 1 takes one that i frees. */
  lemma ForkTaken<K(!new), S, R>(
      cfg: Config<S, R>, cs: seq<Criticals<K>>, deg: seq<nat>, threads: nat, s: S, i: nat, x: nat, y: nat,
      run: seq<Action>, f: State<S, R>, h: History)
    returns (run': seq<Action>, t: nat)
    requires Frees(cs, i, x) && Frees(cs, i, y) && x != y && x < |cs| && y < |cs| && i < x && i < y
    requires Reached(cfg, cs, deg, threads, s, run, f, h) && Untaken(h.place[x]) && Untaken(h.place[y])
    requires |f.workers| >= 2 && Lingers(cfg, f.workers[0].pc) && f.workers[0].pc.id == i
    requires OthersOut(f.workers, 0, 0)
    ensures Run(cfg, cs, deg, threads, s, run') && Edge(cs, i, t)
    ensures var f' := End(cfg, cs, deg, threads, s, run');
            |f'.workers| == |f.workers| && Holds(f'.workers[0].pc, i) && Holds(f'.workers[1].pc, t)
  {
    var w0 := Initial(cfg, deg, threads, s).world;
    t := if f.workers[0].pc.next == Some(x) then y else x;
    FreedReleased(cfg, cs, f, h, w0, i, t);
    var pc := f.workers[0].pc;
    assert Clear(f, h, 1, {t});
    var f', h', g;
    run', f', h', g := ThenReach(cfg, cs, deg, threads, s, run, f, h, 1, {t}, {t});
    assert f'.workers[0] == f.workers[0];
  }

  /** A transaction that frees two others is still in consume when another worker takes one of them. */
  lemma ForkRun<K(!new), S, R>(
      cfg: Config<S, R>, cs: seq<Criticals<K>>, deg: seq<nat>, threads: nat, s: S, i: nat, x: nat, y: nat)
    returns (run: seq<Action>, t: nat)
    requires Prepared(cfg, cs, deg) && threads >= 2 && Frees(cs, i, x) && Frees(cs, i, y) && x != y
    ensures Run(cfg, cs, deg, threads, s, run) && Edge(cs, i, t)
    ensures var f := End(cfg, cs, deg, threads, s, run);
            |f.workers| >= 2 && Holds(f.workers[0].pc, i) && Holds(f.workers[1].pc, t)
  {
    EdgeForwardAndConflicting(cs, i, x);
    EdgeForwardAndConflicting(cs, i, y);
    var f, h, f', h', g;
    run, f, h, g := FirstTaken(cfg, cs, deg, threads, s, {i});
    WaitsForHeld(cfg, cs, f, h, 0, i, x);
    WaitsForHeld(cfg, cs, f, h, 0, i, y);
    run, f', h' := ThenLinger(cfg, cs, deg, threads, s, run, f, h, 0);
    run, t := ForkTaken(cfg, cs, deg, threads, s, i, x, y, run, f', h');
  }
}
