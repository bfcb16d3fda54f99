/**
  Conflicting transactions never execute together, but they can overlap in the
  bookkeeping of consume: while one worker is still in its out-edge loop, a
  successor it has released can be taken by another worker. This happens in
  some run exactly when there are two workers and the block branches.
 */
module Overlap {
  import opened Prelude
  import opened Conflicts
  import opened Branching
  import opened EdgeCounts
  import opened TxDag
  import opened Scheduler
  import opened SchedulerInvariant
  import opened ParallelExecution
  import opened OverlapRun

  /** Two workers are between taking and the end of consume with conflicting transactions. */
  ghost predicate Overlapping<K(!new), S, R>(cs: seq<Criticals<K>>, f: State<S, R>) {
    exists v: nat, w: nat :: v < |f.workers| && w < |f.workers| && OverlappingAt(cs, f.workers[v].pc, f.workers[w].pc)
  }

  ghost predicate OverlappingAt<K(!new)>(cs: seq<Criticals<K>>, a: Pc, b: Pc) {
    exists i: nat, j: nat :: i < j < |cs| && Conflict(cs[i], cs[j]) && Holds(a, i) && Holds(b, j)
  }

  /** A worker in consume offers an out-edge of its vertex, and has kept every successor that is released. */
  ghost predicate KeepsReleased<S, R>(cfg: Config<S, R>, deg: seq<nat>, pc: Pc) {
    pc.Consuming? && pc.id < |cfg.out| ==>
      && pc.push.None?
      && (pc.next.Some? ==> pc.next.value in cfg.out[pc.id])
      && forall t :: t in cfg.out[pc.id] && t < |deg| && deg[t] == 0 ==> pc.next == Some(t)
  }

  ghost predicate AllKept<S, R>(cfg: Config<S, R>, s: State<S, R>) {
    forall w: nat :: w < |s.workers| ==> KeepsReleased(cfg, s.deg, s.workers[w].pc)
  }

  /** While every worker keeps what it releases, no two workers are at vertices joined by a path. */
  lemma KeptApart<K(!new), S, R>(
      cfg: Config<S, R>, cs: seq<Criticals<K>>, s: State<S, R>, h: History, w0: World<S, R>,
      v: nat, w: nat, i: nat, j: nat)
    requires cfg.out == OutEdges(cs, |cs|) && Inv(cfg, s, h, w0) && AllKept(cfg, s)
    requires v < |s.workers| && w < |s.workers| && Holds(s.workers[v].pc, i) && Holds(s.workers[w].pc, j)
    ensures !Path(cs, i, j)
  {
    if Path(cs, i, j) {
      PathForward(cs, i, j);
      assert PlacedAt(s, h.place[i], i) && PlacedAt(s, h.place[j], j);
      AncestorExecuted(cfg, cs, s, h, w0, i, j);
      var t := FirstStep(cs, i, j);
      OutEdgesAreEdges(cs, i, t);
      assert PlacedAt(s, h.place[t], t);
      if t != j {
        AncestorExecuted(cfg, cs, s, h, w0, t, j);
      }
      assert KeepsReleased(cfg, s.deg, s.workers[v].pc);
      assert Offers(s.workers[v].pc, t);
    }
  }

  /** When one edge to t is left, all other predecessors of t have decremented theirs. */
  lemma OnlyPending(rest: seq<seq<nat>>, i: nat, t: nat, p: nat)
    requires InCount(rest, t) == 1 && i < |rest| && t in rest[i] && p < |rest| && p != i
    ensures t !in rest[p]
  {
    InCountUpdate(rest, i, [], t);
    InCountPositive(rest[i := []], t);
    assert multiset(rest[i])[t] >= 1;
    assert rest[i := []][p] == rest[p];
  }

  /** In a block that does not branch, consume releases at most one successor. */
  lemma ReleasesOne<K(!new), S, R>(
      cfg: Config<S, R>, cs: seq<Criticals<K>>, s: State<S, R>, h: History, w0: World<S, R>, a: Action)
    requires !Branches(cs) && cfg.out == OutEdges(cs, |cs|) && Inv(cfg, s, h, w0) && AllKept(cfg, s)
    requires a.FetchSub? && Enabled(cfg, s, a)
    requires var pc := s.workers[a.w].pc; s.deg[cfg.out[pc.id][pc.k]] == 1
    ensures s.workers[a.w].pc.next.None?
  {
    var pc := s.workers[a.w].pc;
    var i, t := pc.id, cfg.out[pc.id][pc.k];
    PendingEdge(cfg, s, h, a);
    if pc.next.Some? {
      var u := pc.next.value;
      assert KeepsReleased(cfg, s.deg, pc) && Offers(pc, u);
      assert PlacedAt(s, h.place[u], u) && PlacedAt(s, h.place[t], t);
      OutEdgesAreEdges(cs, i, t);
      OutEdgesAreEdges(cs, i, u);
      assert !BranchesAt(cs, t, u, i) && !BranchesAt(cs, u, t, i);
      if Path(cs, t, u) {
        AncestorExecuted(cfg, cs, s, h, w0, t, u);
      } else {
        var p := LastStep(cs, u, t);
        OutEdgesAreEdges(cs, p, t);
        assert cfg.out[i][pc.k..][0] == t;
        OnlyPending(h.rest, i, t, p);
        assert RestOf(cfg, s, h, p) && Executed(s, h, p);
        assert PlacedAt(s, h.place[p], p);
        if p != u {
          AncestorExecuted(cfg, cs, s, h, w0, u, p);
        }
      }
    }
  }

  /** In a block that does not branch, no other worker in consume waits for the same successor. */
  lemma ReleasesAlone<K(!new), S, R>(
      cfg: Config<S, R>, cs: seq<Criticals<K>>, s: State<S, R>, h: History, w0: World<S, R>, a: Action, v: nat)
    requires !Branches(cs) && cfg.out == OutEdges(cs, |cs|) && Inv(cfg, s, h, w0) && AllKept(cfg, s)
    requires a.FetchSub? && Enabled(cfg, s, a) && v < |s.workers| && v != a.w && s.workers[v].pc.Consuming?
    ensures s.workers[v].pc.id < |cfg.out|
    ensures var pc := s.workers[a.w].pc; cfg.out[pc.id][pc.k] !in cfg.out[s.workers[v].pc.id]
  {
    var i, j := s.workers[a.w].pc.id, s.workers[v].pc.id;
    var t := cfg.out[i][s.workers[a.w].pc.k];
    assert PlacedAt(s, h.place[i], i) && PlacedAt(s, h.place[j], j);
    assert Holds(s.workers[a.w].pc, i) && Holds(s.workers[v].pc, j);
    if t in cfg.out[j] {
      OutEdgesAreEdges(cs, i, t);
      OutEdgesAreEdges(cs, j, t);
      assert !BranchesAt(cs, i, j, t) && !BranchesAt(cs, j, i, t);
      KeptApart(cfg, cs, s, h, w0, a.w, v, i, j);
      KeptApart(cfg, cs, s, h, w0, v, a.w, j, i);
    }
  }

  lemma FinishKept<S, R>(cfg: Config<S, R>, s: State<S, R>, h: History, w0: World<S, R>, a: Action)
    requires Inv(cfg, s, h, w0) && AllKept(cfg, s) && a.Finish? && Enabled(cfg, s, a)
    ensures AllKept(cfg, Next(cfg, s, a))
  {
    var i := s.workers[a.w].pc.id;
    assert PlacedAt(s, h.place[i], i) && Holds(s.workers[a.w].pc, i) && RestOf(cfg, s, h, i);
    forall t | t in cfg.out[i] && t < |s.deg|
      ensures s.deg[t] > 0
    {
      InCountPositive(h.rest, t);
    }
    assert KeepsReleased(cfg, s.deg, Next(cfg, s, a).workers[a.w].pc);
  }

  lemma FetchSubKept<K(!new), S, R>(
      cfg: Config<S, R>, cs: seq<Criticals<K>>, s: State<S, R>, h: History, w0: World<S, R>, a: Action)
    requires !Branches(cs) && cfg.out == OutEdges(cs, |cs|) && Inv(cfg, s, h, w0) && AllKept(cfg, s)
    requires a.FetchSub? && Enabled(cfg, s, a)
    ensures AllKept(cfg, Next(cfg, s, a))
  {
    var pc, s' := s.workers[a.w].pc, Next(cfg, s, a);
    var t := cfg.out[pc.id][pc.k];
    if s.deg[t] == 1 {
      ReleasesOne(cfg, cs, s, h, w0, a);
    }
    PendingEdge(cfg, s, h, a);
    forall v: nat | v < |s'.workers|
      ensures KeepsReleased(cfg, s'.deg, s'.workers[v].pc)
    {
      assert KeepsReleased(cfg, s.deg, s.workers[v].pc);
      if v != a.w && s.workers[v].pc.Consuming? {
        ReleasesAlone(cfg, cs, s, h, w0, a, v);
      }
    }
  }

  lemma OtherKept<S, R>(cfg: Config<S, R>, s: State<S, R>, a: Action)
    requires AllKept(cfg, s) && !a.FetchSub? && !a.Finish? && Enabled(cfg, s, a)
    ensures AllKept(cfg, Next(cfg, s, a))
  {
    var s' := Next(cfg, s, a);
    forall v: nat | v < |s'.workers|
      ensures KeepsReleased(cfg, s'.deg, s'.workers[v].pc)
    {
      assert KeepsReleased(cfg, s.deg, s.workers[v].pc);
    }
  }

  lemma {:induction false} RunKept<K(!new), S, R>(
      cfg: Config<S, R>, cs: seq<Criticals<K>>, s: State<S, R>, h: History, run: seq<Action>, w0: World<S, R>)
    returns (h': History)
    requires !Branches(cs) && cfg.out == OutEdges(cs, |cs|) && cfg.Valid()
    requires Legal(cfg, s, run) && Inv(cfg, s, h, w0) && AllKept(cfg, s)
    ensures Inv(cfg, After(cfg, s, run), h', w0) && AllKept(cfg, After(cfg, s, run))
    decreases |run|
  {
    if run == [] {
      h' := h;
    } else {
      var a, s1 := run[0], Next(cfg, s, run[0]);
      StepKeepsInv(cfg, s, h, a, w0);
      if a.FetchSub? {
        FetchSubKept(cfg, cs, s, h, w0, a);
      } else if a.Finish? {
        FinishKept(cfg, s, h, w0, a);
      } else {
        OtherKept(cfg, s, a);
      }
      h' := RunKept(cfg, cs, s1, Noted(cfg, s, h, a), run[1..], w0);
    }
  }

  lemma KeptFromOverlapping<K(!new), S, R>(
      cfg: Config<S, R>, cs: seq<Criticals<K>>, f: State<S, R>, h: History, w0: World<S, R>, v: nat, w: nat)
    requires cfg.out == OutEdges(cs, |cs|) && Inv(cfg, f, h, w0) && AllKept(cfg, f)
    requires v < |f.workers| && w < |f.workers|
    ensures !OverlappingAt(cs, f.workers[v].pc, f.workers[w].pc)
  {
    forall i: nat, j: nat | i < j < |cs| && Conflict(cs[i], cs[j])
      ensures !(Holds(f.workers[v].pc, i) && Holds(f.workers[w].pc, j))
    {
      if Holds(f.workers[v].pc, i) && Holds(f.workers[w].pc, j) {
        ConflictHasPath(cs, i, j);
        KeptApart(cfg, cs, f, h, w0, v, w, i, j);
      }
    }
  }

  /** A run that overlaps needs two workers and a block that branches. */
  lemma OverlapNeedsBranch<K(!new), S, R>(
      cfg: Config<S, R>, cs: seq<Criticals<K>>, deg: seq<nat>, threads: nat, s: S, run: seq<Action>)
    requires Run(cfg, cs, deg, threads, s, run) && Overlapping(cs, End(cfg, cs, deg, threads, s, run))
    ensures threads >= 2 && Branches(cs)
  {
    var s0, f := Initial(cfg, deg, threads, s), End(cfg, cs, deg, threads, s, run);
    var v: nat, w: nat :| v < |f.workers| && w < |f.workers| && OverlappingAt(cs, f.workers[v].pc, f.workers[w].pc);
    WorkersKept(cfg, s0, run);
    assert v != w;
    if !Branches(cs) {
      PreparedValid(cfg, cs, deg);
      InitialInv(cfg, deg, threads, s);
      var h := RunKept(cfg, cs, s0, Start0(cfg, deg), run, s0.world);
      KeptFromOverlapping(cfg, cs, f, h, s0.world, v, w);
    }
  }

  /** A branching block overlaps in some run of two or more workers. */
  lemma BranchOverlaps<K(!new), S, R>(
      cfg: Config<S, R>, cs: seq<Criticals<K>>, deg: seq<nat>, threads: nat, s: S)
    returns (run: seq<Action>)
    requires Prepared(cfg, cs, deg) && threads >= 2 && Branches(cs)
    ensures Run(cfg, cs, deg, threads, s, run) && Overlapping(cs, End(cfg, cs, deg, threads, s, run))
  {
    var join, x, y, j := BranchesShape(cs);
    if join {
      var v, w;
      run, v, w := JoinRun(cfg, cs, deg, threads, s, x, y, j);
      EdgeForwardAndConflicting(cs, x, j);
      var f := End(cfg, cs, deg, threads, s, run);
      assert OverlappingAt(cs, f.workers[v].pc, f.workers[w].pc);
    } else {
      var t;
      run, t := ForkRun(cfg, cs, deg, threads, s, j, x, y);
      EdgeForwardAndConflicting(cs, j, t);
      var f := End(cfg, cs, deg, threads, s, run);
      assert OverlappingAt(cs, f.workers[0].pc, f.workers[1].pc);
    }
  }

  /** Two conflicting transactions overlap in some run exactly when there are two workers and the block branches. */
  lemma OverlapExactly<K(!new), S, R>(cfg: Config<S, R>, cs: seq<Criticals<K>>, deg: seq<nat>, threads: nat, s: S)
    requires Prepared(cfg, cs, deg)
    ensures (exists run :: Run(cfg, cs, deg, threads, s, run) && Overlapping(cs, End(cfg, cs, deg, threads, s, run)))
            <==> threads >= 2 && Branches(cs)
  {
    if threads >= 2 && Branches(cs) {
      var run := BranchOverlaps(cfg, cs, deg, threads, s);
    }
    if run :| Run(cfg, cs, deg, threads, s, run) && Overlapping(cs, End(cfg, cs, deg, threads, s, run)) {
      OverlapNeedsBranch(cfg, cs, deg, threads, s, run);
    }
  }

  /** Transactions 1 and 2 each depend on transaction 0 and not on each other. */
  const FORK: seq<Criticals<nat>> := [Some([0, 1]), Some([0]), Some([1])]

  /** A concrete block on which conflicting transactions overlap. */
  lemma ForkOverlaps<S, R>(cfg: Config<S, R>, deg: seq<nat>, threads: nat, s: S) returns (run: seq<Action>)
    requires Prepared(cfg, FORK, deg) && threads >= 2
    ensures Run(cfg, FORK, deg, threads, s, run) && Overlapping(FORK, End(cfg, FORK, deg, threads, s, run))
  {
    assert 0 in FORK[0].value && 0 in FORK[1].value && 1 in FORK[0].value && 1 in FORK[2].value;
    ConflictHasPath(FORK, 0, 1);
    ConflictHasPath(FORK, 0, 2);
    PathsAreConflictChains(FORK, 1, 2);
    assert BranchesAt(FORK, 1, 2, 0);
    run := BranchOverlaps(cfg, FORK, deg, threads, s);
  }
}
