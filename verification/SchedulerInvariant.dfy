/**
  What every step of the workers keeps. A history records, beside the machine,
  where each vertex is, which of its out-edges are still to be decremented, and
  in which order transactions took effect; the machine never reads it.
 */
module SchedulerInvariant {
  import opened Prelude
  import opened EdgeCounts
  import opened TxDag
  import opened Scheduler

  datatype Place =
    | Waiting          // some incoming edge is not decremented yet
    | Queued
    | HandedOff(w: nat) // the nextId of worker w
    | Released(w: nat)  // taken out of waiting by worker w, not pushed yet
    | At(w: nat)       // held, executed or consumed by worker w
    | Done

  datatype History = History(place: seq<Place>, rest: seq<seq<nat>>, log: seq<nat>)

  function Start0<S, R>(cfg: Config<S, R>, deg: seq<nat>): History
    requires |deg| == |cfg.out|
  {
    History(seq(|deg|, v requires 0 <= v < |deg| => if deg[v] == 0 then Queued else Waiting), cfg.out, [])
  }

  predicate Holds(pc: Pc, v: nat) {
    match pc
    case Holding(id) => id == v
    case Executing(id) => id == v
    case Consuming(id, _, _, _) => id == v
    case _ => false
  }

  predicate Offers(pc: Pc, v: nat) {
    pc.Consuming? && pc.next == Some(v)
  }

  predicate Releases(pc: Pc, v: nat) {
    pc.Consuming? && pc.push == Some(v)
  }

  function Noted<S, R>(cfg: Config<S, R>, s: State<S, R>, h: History, a: Action): History
    requires Enabled(cfg, s, a) && Shape(cfg, s, h)
  {
    var pc := s.workers[a.w].pc;
    match a
    case Pop(w) => h.(place := h.place[s.queue[0] := At(w)])
    case Finish(w) => h.(log := h.log + [pc.id])
    case FetchSub(w) =>
      var t := cfg.out[pc.id][pc.k];
      h.(rest := h.rest[pc.id := if h.rest[pc.id] == [] then [] else h.rest[pc.id][1..]],
         place := if s.deg[t] != 1 then h.place
                  else h.place[t := if pc.next.None? then HandedOff(w) else Released(w)])
    case Push(w) => h.(place := h.place[pc.push.value := Queued])
    case Leave(w) =>
      h.(place := if pc.next.None? then h.place[pc.id := Done] else h.place[pc.id := Done][pc.next.value := At(w)])
    case _ => h
  }

  predicate PcInRange(pc: Pc, n: nat) {
    match pc
    case Holding(id) => id < n
    case Executing(id) => id < n
    case Consuming(id, _, next, push) => id < n && (next.Some? ==> next.value < n) && (push.Some? ==> push.value < n)
    case _ => true
  }

  predicate Shape<S, R>(cfg: Config<S, R>, s: State<S, R>, h: History) {
    && |s.deg| == |h.place| == |h.rest| == |s.world.receipts| == |cfg.out|
    && (forall w :: 0 <= w < |s.workers| ==> PcInRange(s.workers[w].pc, |cfg.out|))
    && (forall i :: 0 <= i < |s.queue| ==> s.queue[i] < |cfg.out|)
  }

  predicate Found<S, R>(s: State<S, R>, place: Place, v: nat) {
    match place
    case Queued => v in s.queue
    case HandedOff(w) => w < |s.workers| && Offers(s.workers[w].pc, v)
    case Released(w) => w < |s.workers| && Releases(s.workers[w].pc, v)
    case At(w) => w < |s.workers| && Holds(s.workers[w].pc, v)
    case _ => true
  }

  /** Vertex v is at the place the history says, and nowhere else. */
  ghost predicate PlacedAt<S, R>(s: State<S, R>, place: Place, v: nat)
    requires v < |s.deg|
  {
    && Found(s, place, v)
    && (place.Waiting? <==> s.deg[v] > 0)
    && (v in s.queue ==> place.Queued?)
    && forall w: nat :: w < |s.workers| ==>
                          && (Holds(s.workers[w].pc, v) ==> place == At(w))
                          && (Offers(s.workers[w].pc, v) ==> place == HandedOff(w))
                          && (Releases(s.workers[w].pc, v) ==> place == Released(w))
  }

  ghost predicate Placed<S, R>(s: State<S, R>, h: History)
    requires |h.place| == |s.deg|
  {
    && (forall v: nat :: v < |h.place| ==> PlacedAt(s, h.place[v], v))
    && Distinct(s.queue)
  }

  /** The out-edges of v that are not decremented yet. */
  ghost predicate RestOf<S, R>(cfg: Config<S, R>, s: State<S, R>, h: History, v: nat)
    requires Shape(cfg, s, h) && v < |cfg.out|
  {
    match h.place[v]
    case Done => h.rest[v] == []
    case At(w) =>
      w < |s.workers| &&
      if s.workers[w].pc.Consuming?
      then s.workers[w].pc.k <= |cfg.out[v]| && h.rest[v] == cfg.out[v][s.workers[w].pc.k..]
      else h.rest[v] == cfg.out[v]
    case _ => h.rest[v] == cfg.out[v]
  }

  /** Each counter holds the number of edges to its vertex that are not decremented yet, with multiplicity. */
  ghost predicate DegreesMatch<S, R>(cfg: Config<S, R>, s: State<S, R>, h: History)
    requires Shape(cfg, s, h)
  {
    && (forall t: nat :: t < |s.deg| ==> s.deg[t] == InCount(h.rest, t))
    && (forall v: nat :: v < |cfg.out| ==> RestOf(cfg, s, h, v))
  }

  predicate Executed<S, R>(s: State<S, R>, h: History, v: nat)
    requires v < |h.place|
  {
    match h.place[v]
    case Done => true
    case At(w) => w < |s.workers| && s.workers[w].pc.Consuming?
    case _ => false
  }

  ghost predicate Ordered(out: seq<seq<nat>>, log: seq<nat>) {
    forall p: nat, j: nat :: p < |out| && j < |log| && log[j] in out[p] ==> p in log[..j]
  }

  /** Each transaction takes effect once, after its predecessors, and the world is their composition. */
  ghost predicate LogFaithful<S, R>(cfg: Config<S, R>, s: State<S, R>, h: History, w0: World<S, R>)
    requires Shape(cfg, s, h)
  {
    && Distinct(h.log)
    && (forall v: nat :: v in h.log <==> v < |cfg.out| && Executed(s, h, v))
    && Ordered(cfg.out, h.log)
    && s.world == RunInOrder(cfg, w0, h.log)
  }

  predicate Busy(pc: Pc) {
    pc.Executing? || pc.Consuming?
  }

  /** The local counts of the workers. */
  function Local(workers: seq<Worker>): nat {
    if workers == [] then 0 else workers[0].cnt + Local(workers[1..])
  }

  function BusyCount(workers: seq<Worker>): nat {
    if workers == [] then 0 else (if Busy(workers[0].pc) then 1 else 0) + BusyCount(workers[1..])
  }

  ghost function DoneSet(place: seq<Place>): set<nat> {
    set v: nat | v < |place| && place[v].Done?
  }

  ghost predicate Counted<S, R>(cfg: Config<S, R>, s: State<S, R>, h: History) {
    && s.consumed == |DoneSet(h.place)|
    && s.flushed + Local(s.workers) == s.consumed + BusyCount(s.workers)
    && (forall w :: 0 <= w < |s.workers| ==>
          && (Busy(s.workers[w].pc) ==> s.workers[w].cnt > 0)
          && (s.workers[w].pc.Outside? || s.workers[w].pc.Exited? ==> s.workers[w].cnt == 0)
          && (s.workers[w].pc.Exited? ==> s.flushed >= |cfg.out|))
  }

  ghost predicate Inv<S, R>(cfg: Config<S, R>, s: State<S, R>, h: History, w0: World<S, R>) {
    Shape(cfg, s, h) && Placed(s, h) && DegreesMatch(cfg, s, h) && LogFaithful(cfg, s, h, w0) && Counted(cfg, s, h)
  }

  lemma KeepsShape<S, R>(cfg: Config<S, R>, s: State<S, R>, h: History, a: Action)
    requires cfg.Valid() && Enabled(cfg, s, a) && Shape(cfg, s, h)
    ensures Shape(cfg, Next(cfg, s, a), Noted(cfg, s, h, a))
  {
    if a.FetchSub? {
      var pc := s.workers[a.w].pc;
      assert cfg.out[pc.id][pc.k] in cfg.out[pc.id];
    }
  }

  /** The edge about to be decremented is still counted. */
  lemma PendingEdge<S, R>(cfg: Config<S, R>, s: State<S, R>, h: History, a: Action)
    requires a.FetchSub? && Enabled(cfg, s, a) && Shape(cfg, s, h) && Placed(s, h) && DegreesMatch(cfg, s, h)
    ensures var pc := s.workers[a.w].pc;
            && h.place[pc.id] == At(a.w) && h.rest[pc.id] == cfg.out[pc.id][pc.k..]
            && s.deg[cfg.out[pc.id][pc.k]] > 0 && h.place[cfg.out[pc.id][pc.k]].Waiting?
  {
    var pc := s.workers[a.w].pc;
    var t := cfg.out[pc.id][pc.k];
    assert PlacedAt(s, h.place[pc.id], pc.id) && Holds(pc, pc.id);
    assert RestOf(cfg, s, h, pc.id);
    assert h.rest[pc.id][0] == t;
    InCountPositive(h.rest, t);
    assert PlacedAt(s, h.place[t], t);
  }

  /** Steps that move no vertex. */
  predicate Quiet(a: Action) {
    !(a.Pop? || a.FetchSub? || a.Push? || a.Leave?)
  }

  lemma QuietPlaced<S, R>(cfg: Config<S, R>, s: State<S, R>, h: History, a: Action, v: nat)
    requires Enabled(cfg, s, a) && Shape(cfg, s, h) && v < |h.place| && PlacedAt(s, h.place[v], v)
    requires Quiet(a)
    ensures PlacedAt(Next(cfg, s, a), h.place[v], v)
  {
    var s' := Next(cfg, s, a);
    forall w: nat | w < |s.workers|
      ensures Holds(s'.workers[w].pc, v) <==> Holds(s.workers[w].pc, v)
      ensures Offers(s'.workers[w].pc, v) <==> Offers(s.workers[w].pc, v)
      ensures Releases(s'.workers[w].pc, v) <==> Releases(s.workers[w].pc, v)
    {
    }
  }

  lemma PopPlaced<S, R>(cfg: Config<S, R>, s: State<S, R>, h: History, a: Action, v: nat)
    requires Enabled(cfg, s, a) && Shape(cfg, s, h) && v < |h.place| && Placed(s, h)
    requires a.Pop?
    ensures PlacedAt(Next(cfg, s, a), Noted(cfg, s, h, a).place[v], v)
  {
    var x := s.queue[0];
    assert PlacedAt(s, h.place[v], v) && PlacedAt(s, h.place[x], x);
    assert s.queue == [x] + s.queue[1..];
  }

  lemma FetchSubPlaced<S, R>(cfg: Config<S, R>, s: State<S, R>, h: History, a: Action, v: nat)
    requires Enabled(cfg, s, a) && Shape(cfg, s, h) && v < |h.place| && Placed(s, h) && DegreesMatch(cfg, s, h)
    requires a.FetchSub?
    ensures PlacedAt(Next(cfg, s, a), Noted(cfg, s, h, a).place[v], v)
  {
    PendingEdge(cfg, s, h, a);
    assert PlacedAt(s, h.place[v], v);
    var pc := s.workers[a.w].pc;
    assert Holds(pc, v) <==> pc.id == v;
  }

  lemma PushPlaced<S, R>(cfg: Config<S, R>, s: State<S, R>, h: History, a: Action, v: nat)
    requires Enabled(cfg, s, a) && Shape(cfg, s, h) && v < |h.place| && Placed(s, h)
    requires a.Push?
    ensures PlacedAt(Next(cfg, s, a), Noted(cfg, s, h, a).place[v], v)
  {
    var x := s.workers[a.w].pc.push.value;
    assert PlacedAt(s, h.place[v], v) && PlacedAt(s, h.place[x], x);
    assert Releases(s.workers[a.w].pc, x);
  }

  lemma LeavePlaced<S, R>(cfg: Config<S, R>, s: State<S, R>, h: History, a: Action, v: nat)
    requires Enabled(cfg, s, a) && Shape(cfg, s, h) && v < |h.place| && Placed(s, h)
    requires a.Leave?
    ensures PlacedAt(Next(cfg, s, a), Noted(cfg, s, h, a).place[v], v)
  {
    var pc := s.workers[a.w].pc;
    assert PlacedAt(s, h.place[v], v) && PlacedAt(s, h.place[pc.id], pc.id) && Holds(pc, pc.id);
    if pc.next.Some? {
      assert PlacedAt(s, h.place[pc.next.value], pc.next.value) && Offers(pc, pc.next.value);
    }
  }

  lemma KeepsPlacedAt<S, R>(cfg: Config<S, R>, s: State<S, R>, h: History, a: Action, v: nat)
    requires Enabled(cfg, s, a) && Shape(cfg, s, h) && v < |h.place| && Placed(s, h) && DegreesMatch(cfg, s, h)
    ensures PlacedAt(Next(cfg, s, a), Noted(cfg, s, h, a).place[v], v)
  {
    if Quiet(a) {
      QuietPlaced(cfg, s, h, a, v);
    } else if a.Pop? {
      PopPlaced(cfg, s, h, a, v);
    } else if a.FetchSub? {
      FetchSubPlaced(cfg, s, h, a, v);
    } else if a.Push? {
      PushPlaced(cfg, s, h, a, v);
    } else {
      LeavePlaced(cfg, s, h, a, v);
    }
  }

  lemma KeepsPlaced<S, R>(cfg: Config<S, R>, s: State<S, R>, h: History, a: Action)
    requires Enabled(cfg, s, a) && Shape(cfg, s, h) && Placed(s, h) && DegreesMatch(cfg, s, h)
    ensures |Next(cfg, s, a).deg| == |Noted(cfg, s, h, a).place|
    ensures Placed(Next(cfg, s, a), Noted(cfg, s, h, a))
  {
    forall v: nat | v < |h.place|
      ensures PlacedAt(Next(cfg, s, a), Noted(cfg, s, h, a).place[v], v)
    {
      KeepsPlacedAt(cfg, s, h, a, v);
    }
    if a.Push? {
      var pc := s.workers[a.w].pc;
      assert PlacedAt(s, h.place[pc.push.value], pc.push.value) && Releases(pc, pc.push.value);
    }
  }

  lemma QuietRestOf<S, R>(cfg: Config<S, R>, s: State<S, R>, h: History, a: Action, v: nat)
    requires Quiet(a) && Enabled(cfg, s, a) && Shape(cfg, s, h) && Placed(s, h)
    requires Shape(cfg, Next(cfg, s, a), Noted(cfg, s, h, a)) && v < |cfg.out| && RestOf(cfg, s, h, v)
    ensures RestOf(cfg, Next(cfg, s, a), Noted(cfg, s, h, a), v)
  {
    assert PlacedAt(s, h.place[v], v);
    assert cfg.out[v][0..] == cfg.out[v];
  }

  lemma MovingRestOf<S, R>(cfg: Config<S, R>, s: State<S, R>, h: History, a: Action, v: nat)
    requires (a.Pop? || a.Push?) && Enabled(cfg, s, a) && Shape(cfg, s, h) && Placed(s, h)
    requires Shape(cfg, Next(cfg, s, a), Noted(cfg, s, h, a)) && v < |cfg.out| && RestOf(cfg, s, h, v)
    ensures RestOf(cfg, Next(cfg, s, a), Noted(cfg, s, h, a), v)
  {
    var x := if a.Pop? then s.queue[0] else s.workers[a.w].pc.push.value;
    assert PlacedAt(s, h.place[v], v) && PlacedAt(s, h.place[x], x);
    assert a.Push? ==> Releases(s.workers[a.w].pc, x);
  }

  lemma FetchSubRestOf<S, R>(cfg: Config<S, R>, s: State<S, R>, h: History, a: Action, v: nat)
    requires a.FetchSub? && Enabled(cfg, s, a) && Shape(cfg, s, h) && Placed(s, h) && DegreesMatch(cfg, s, h)
    requires Shape(cfg, Next(cfg, s, a), Noted(cfg, s, h, a)) && v < |cfg.out|
    ensures RestOf(cfg, Next(cfg, s, a), Noted(cfg, s, h, a), v)
  {
    PendingEdge(cfg, s, h, a);
    assert RestOf(cfg, s, h, v) && PlacedAt(s, h.place[v], v);
  }

  lemma LeaveRestOf<S, R>(cfg: Config<S, R>, s: State<S, R>, h: History, a: Action, v: nat)
    requires a.Leave? && Enabled(cfg, s, a) && Shape(cfg, s, h) && Placed(s, h) && DegreesMatch(cfg, s, h)
    requires Shape(cfg, Next(cfg, s, a), Noted(cfg, s, h, a)) && v < |cfg.out|
    ensures RestOf(cfg, Next(cfg, s, a), Noted(cfg, s, h, a), v)
  {
    var pc := s.workers[a.w].pc;
    assert RestOf(cfg, s, h, v) && PlacedAt(s, h.place[v], v);
    assert RestOf(cfg, s, h, pc.id) && PlacedAt(s, h.place[pc.id], pc.id) && Holds(pc, pc.id);
    if pc.next.Some? {
      assert PlacedAt(s, h.place[pc.next.value], pc.next.value) && Offers(pc, pc.next.value);
    }
  }

  lemma KeepsRestOf<S, R>(cfg: Config<S, R>, s: State<S, R>, h: History, a: Action, v: nat)
    requires Enabled(cfg, s, a) && Shape(cfg, s, h) && Placed(s, h) && DegreesMatch(cfg, s, h)
    requires Shape(cfg, Next(cfg, s, a), Noted(cfg, s, h, a)) && v < |cfg.out|
    ensures RestOf(cfg, Next(cfg, s, a), Noted(cfg, s, h, a), v)
  {
    assert RestOf(cfg, s, h, v);
    if Quiet(a) {
      QuietRestOf(cfg, s, h, a, v);
    } else if a.FetchSub? {
      FetchSubRestOf(cfg, s, h, a, v);
    } else if a.Leave? {
      LeaveRestOf(cfg, s, h, a, v);
    } else {
      MovingRestOf(cfg, s, h, a, v);
    }
  }

  lemma FetchSubDegrees<S, R>(cfg: Config<S, R>, s: State<S, R>, h: History, a: Action, t: nat)
    requires a.FetchSub? && Enabled(cfg, s, a) && Shape(cfg, s, h) && Placed(s, h) && DegreesMatch(cfg, s, h)
    requires t < |s.deg|
    ensures Next(cfg, s, a).deg[t] == InCount(Noted(cfg, s, h, a).rest, t)
  {
    PendingEdge(cfg, s, h, a);
    var pc := s.workers[a.w].pc;
    InCountUpdate(h.rest, pc.id, h.rest[pc.id][1..], t);
    assert h.rest[pc.id] == [cfg.out[pc.id][pc.k]] + h.rest[pc.id][1..];
  }

  lemma KeepsDegrees<S, R>(cfg: Config<S, R>, s: State<S, R>, h: History, a: Action)
    requires Enabled(cfg, s, a) && Shape(cfg, s, h) && Placed(s, h) && DegreesMatch(cfg, s, h)
    requires Shape(cfg, Next(cfg, s, a), Noted(cfg, s, h, a))
    ensures DegreesMatch(cfg, Next(cfg, s, a), Noted(cfg, s, h, a))
  {
    var s', h' := Next(cfg, s, a), Noted(cfg, s, h, a);
    forall t: nat | t < |s'.deg|
      ensures s'.deg[t] == InCount(h'.rest, t)
    {
      if a.FetchSub? {
        FetchSubDegrees(cfg, s, h, a, t);
      }
    }
    forall v: nat | v < |cfg.out|
      ensures RestOf(cfg, s', h', v)
    {
      KeepsRestOf(cfg, s, h, a, v);
    }
  }

  /** A vertex that moves to or from a place where nothing is executed. */
  lemma MovingExecuted<S, R>(cfg: Config<S, R>, s: State<S, R>, h: History, a: Action, v: nat)
    requires Enabled(cfg, s, a) && Shape(cfg, s, h) && Placed(s, h) && v < |cfg.out| && (a.Pop? || a.Push?)
    ensures Executed(Next(cfg, s, a), Noted(cfg, s, h, a), v) <==> Executed(s, h, v)
  {
    var x := if a.Pop? then s.queue[0] else s.workers[a.w].pc.push.value;
    assert PlacedAt(s, h.place[v], v) && PlacedAt(s, h.place[x], x);
    assert a.Push? ==> Releases(s.workers[a.w].pc, x);
  }

  lemma QuietExecuted<S, R>(cfg: Config<S, R>, s: State<S, R>, h: History, a: Action, v: nat)
    requires Enabled(cfg, s, a) && Shape(cfg, s, h) && Placed(s, h) && v < |cfg.out| && Quiet(a)
    ensures Executed(Next(cfg, s, a), Noted(cfg, s, h, a), v)
       <==> Executed(s, h, v) || (a.Finish? && v == s.workers[a.w].pc.id)
  {
    var pc := s.workers[a.w].pc;
    assert PlacedAt(s, h.place[v], v);
    if a.Finish? {
      assert PlacedAt(s, h.place[pc.id], pc.id) && Holds(pc, pc.id);
    }
  }

  lemma LeaveExecuted<S, R>(cfg: Config<S, R>, s: State<S, R>, h: History, a: Action, v: nat)
    requires Enabled(cfg, s, a) && Shape(cfg, s, h) && Placed(s, h) && v < |cfg.out| && a.Leave?
    ensures Executed(Next(cfg, s, a), Noted(cfg, s, h, a), v) <==> Executed(s, h, v)
  {
    var pc := s.workers[a.w].pc;
    assert PlacedAt(s, h.place[v], v) && PlacedAt(s, h.place[pc.id], pc.id) && Holds(pc, pc.id);
    if pc.next.Some? {
      assert PlacedAt(s, h.place[pc.next.value], pc.next.value) && Offers(pc, pc.next.value);
    }
  }

  /** A transaction becomes executed by its Finish step and stays so. */
  lemma KeepsExecuted<S, R>(cfg: Config<S, R>, s: State<S, R>, h: History, a: Action, v: nat)
    requires Enabled(cfg, s, a) && Shape(cfg, s, h) && Placed(s, h) && DegreesMatch(cfg, s, h) && v < |cfg.out|
    ensures Executed(Next(cfg, s, a), Noted(cfg, s, h, a), v)
       <==> Executed(s, h, v) || (a.Finish? && v == s.workers[a.w].pc.id)
  {
    if Quiet(a) {
      QuietExecuted(cfg, s, h, a, v);
    } else if a.FetchSub? {
      PendingEdge(cfg, s, h, a);
      assert PlacedAt(s, h.place[v], v);
    } else if a.Leave? {
      LeaveExecuted(cfg, s, h, a, v);
    } else {
      MovingExecuted(cfg, s, h, a, v);
    }
  }

  /** A vertex that is no longer waiting has all its predecessors executed. */
  lemma PredecessorsExecuted<S, R>(cfg: Config<S, R>, s: State<S, R>, h: History, p: nat, t: nat)
    requires Shape(cfg, s, h) && Placed(s, h) && DegreesMatch(cfg, s, h)
    requires p < |cfg.out| && t < |cfg.out| && t in cfg.out[p] && !h.place[t].Waiting?
    ensures Executed(s, h, p)
  {
    assert PlacedAt(s, h.place[t], t) && PlacedAt(s, h.place[p], p);
    InCountPositive(h.rest, t);
    assert t !in h.rest[p];
    assert RestOf(cfg, s, h, p);
  }

  lemma LogExtended(out: seq<seq<nat>>, log: seq<nat>, id: nat)
    requires Ordered(out, log) && Distinct(log) && id !in log
    requires forall p: nat :: p < |out| && id in out[p] ==> p in log
    ensures Ordered(out, log + [id]) && Distinct(log + [id])
  {
    var log' := log + [id];
    forall p: nat, j: nat | p < |out| && j < |log'| && log'[j] in out[p]
      ensures p in log'[..j]
    {
      assert log'[..j] == log[..j];
      assert j == |log| ==> log[..j] == log;
    }
    assert forall i :: 0 <= i < |log| ==> log[i] in log;
  }

  lemma KeepsLog<S, R>(cfg: Config<S, R>, s: State<S, R>, h: History, a: Action, w0: World<S, R>)
    requires Enabled(cfg, s, a) && Shape(cfg, s, h) && Placed(s, h) && DegreesMatch(cfg, s, h)
    requires LogFaithful(cfg, s, h, w0) && Shape(cfg, Next(cfg, s, a), Noted(cfg, s, h, a))
    ensures LogFaithful(cfg, Next(cfg, s, a), Noted(cfg, s, h, a), w0)
  {
    var s', h' := Next(cfg, s, a), Noted(cfg, s, h, a);
    forall v: nat
      ensures v in h'.log <==> v < |cfg.out| && Executed(s', h', v)
    {
      if v < |cfg.out| {
        KeepsExecuted(cfg, s, h, a, v);
      }
    }
    if a.Finish? {
      var id := s.workers[a.w].pc.id;
      assert PlacedAt(s, h.place[id], id) && Holds(s.workers[a.w].pc, id);
      assert !Executed(s, h, id);
      forall p: nat | p < |cfg.out| && id in cfg.out[p]
        ensures p in h.log
      {
        PredecessorsExecuted(cfg, s, h, p, id);
      }
      LogExtended(cfg.out, h.log, id);
      assert h'.log[..|h.log|] == h.log;
    }
  }

  lemma {:induction false} LocalUpdate(workers: seq<Worker>, w: nat, x: Worker)
    requires w < |workers|
    ensures Local(workers[w := x]) == Local(workers) - workers[w].cnt + x.cnt
    ensures BusyCount(workers[w := x])
         == BusyCount(workers) - (if Busy(workers[w].pc) then 1 else 0) + (if Busy(x.pc) then 1 else 0)
  {
    if w > 0 {
      LocalUpdate(workers[1..], w - 1, x);
      assert workers[w := x][1..] == workers[1..][w - 1 := x];
    } else {
      assert workers[w := x][1..] == workers[1..];
    }
  }

  /** The vertex that a moving step moves first is not done. */
  lemma MoverNotDone<S, R>(cfg: Config<S, R>, s: State<S, R>, h: History, a: Action)
    requires Enabled(cfg, s, a) && Shape(cfg, s, h) && Placed(s, h) && DegreesMatch(cfg, s, h)
    ensures a.Pop? ==> !h.place[s.queue[0]].Done?
    ensures a.FetchSub? ==> !h.place[cfg.out[s.workers[a.w].pc.id][s.workers[a.w].pc.k]].Done?
    ensures a.Push? ==> !h.place[s.workers[a.w].pc.push.value].Done?
    ensures a.Leave? ==>
              var pc := s.workers[a.w].pc;
              h.place[pc.id].At? && (pc.next.Some? ==> h.place[pc.next.value].HandedOff?)
  {
    var pc := s.workers[a.w].pc;
    if a.Pop? {
      assert PlacedAt(s, h.place[s.queue[0]], s.queue[0]);
    } else if a.FetchSub? {
      PendingEdge(cfg, s, h, a);
    } else if a.Push? {
      assert PlacedAt(s, h.place[pc.push.value], pc.push.value) && Releases(pc, pc.push.value);
    } else if a.Leave? {
      assert PlacedAt(s, h.place[pc.id], pc.id) && Holds(pc, pc.id);
      if pc.next.Some? {
        assert PlacedAt(s, h.place[pc.next.value], pc.next.value) && Offers(pc, pc.next.value);
      }
    }
  }

  lemma DoneMoved(place: seq<Place>, x: nat, p: Place)
    requires x < |place| && !place[x].Done?
    ensures |DoneSet(place[x := p])| == |DoneSet(place)| + if p.Done? then 1 else 0
  {
    assert DoneSet(place[x := p]) == if p.Done? then DoneSet(place) + {x} else DoneSet(place);
  }

  lemma KeepsDoneSet<S, R>(cfg: Config<S, R>, s: State<S, R>, h: History, a: Action)
    requires Enabled(cfg, s, a) && Shape(cfg, s, h) && Placed(s, h) && DegreesMatch(cfg, s, h)
    ensures |DoneSet(Noted(cfg, s, h, a).place)| == |DoneSet(h.place)| + if a.Leave? then 1 else 0
  {
    MoverNotDone(cfg, s, h, a);
    var pc := s.workers[a.w].pc;
    match a
    case Pop(w) => DoneMoved(h.place, s.queue[0], At(w));
    case FetchSub(w) =>
      DoneMoved(h.place, cfg.out[pc.id][pc.k], if pc.next.None? then HandedOff(w) else Released(w));
    case Push(w) => DoneMoved(h.place, pc.push.value, Queued);
    case Leave(w) =>
      DoneMoved(h.place, pc.id, Done);
      if pc.next.Some? {
        DoneMoved(h.place[pc.id := Done], pc.next.value, At(w));
      }
    case _ =>
  }

  lemma KeepsCounted<S, R>(cfg: Config<S, R>, s: State<S, R>, h: History, a: Action)
    requires Enabled(cfg, s, a) && Shape(cfg, s, h) && Placed(s, h) && DegreesMatch(cfg, s, h) && Counted(cfg, s, h)
    ensures Counted(cfg, Next(cfg, s, a), Noted(cfg, s, h, a))
  {
    KeepsDoneSet(cfg, s, h, a);
    LocalUpdate(s.workers, a.w, Next(cfg, s, a).workers[a.w]);
  }

  /** Every step keeps the invariant. */
  lemma StepKeepsInv<S, R>(cfg: Config<S, R>, s: State<S, R>, h: History, a: Action, w0: World<S, R>)
    requires cfg.Valid() && Enabled(cfg, s, a) && Inv(cfg, s, h, w0)
    ensures Inv(cfg, Next(cfg, s, a), Noted(cfg, s, h, a), w0)
  {
    KeepsShape(cfg, s, h, a);
    KeepsPlaced(cfg, s, h, a);
    KeepsDegrees(cfg, s, h, a);
    KeepsLog(cfg, s, h, a, w0);
    KeepsCounted(cfg, s, h, a);
  }

  lemma {:induction false} NothingCounted(workers: seq<Worker>)
    requires forall w :: 0 <= w < |workers| ==> workers[w] == Worker(Outside, 0)
    ensures Local(workers) == 0 && BusyCount(workers) == 0
  {
    if workers == [] {
    } else {
      NothingCounted(workers[1..]);
    }
  }

  /** In-degrees as TxDAG::init leaves them. */
  ghost predicate InDegrees(out: seq<seq<nat>>, deg: seq<nat>) {
    |deg| == |out| && forall t: nat :: t < |deg| ==> deg[t] == InCount(out, t)
  }

  lemma InitialInv<S, R>(cfg: Config<S, R>, deg: seq<nat>, threads: nat, s: S)
    requires cfg.Valid() && InDegrees(cfg.out, deg)
    ensures var s0 := Initial(cfg, deg, threads, s); Inv(cfg, s0, Start0(cfg, deg), s0.world)
  {
    var s0 := Initial(cfg, deg, threads, s);
    var h := Start0(cfg, deg);
    ReadyExactly(deg, |deg|);
    NothingCounted(s0.workers);
    assert forall i :: 0 <= i < |s0.queue| ==> s0.queue[i] in s0.queue;
    assert DoneSet(h.place) == {};
    forall v: nat | v < |deg|
      ensures PlacedAt(s0, h.place[v], v) && RestOf(cfg, s0, h, v)
    {
    }
  }

  /** Every reachable state satisfies the invariant for some history. */
  lemma {:induction false} RunKeepsInv<S, R>(
      cfg: Config<S, R>, s: State<S, R>, h: History, run: seq<Action>, w0: World<S, R>) returns (h': History)
    requires cfg.Valid() && Legal(cfg, s, run) && Inv(cfg, s, h, w0)
    ensures Inv(cfg, After(cfg, s, run), h', w0)
    decreases |run|
  {
    if run == [] {
      h' := h;
    } else {
      StepKeepsInv(cfg, s, h, run[0], w0);
      h' := RunKeepsInv(cfg, Next(cfg, s, run[0]), Noted(cfg, s, h, run[0]), run[1..], w0);
    }
  }
}
