/**
  Executing a block in any order that keeps conflicting transactions in block
  order gives the world of the serial loop, if transactions without a conflict
  commute.
 */
module Serializability {
  import opened Prelude
  import opened Conflicts
  import opened TxDag
  import opened Scheduler
  import opened SchedulerInvariant

  /** Executing i and j in either order gives the same state and the same two receipts. */
  ghost predicate Commutes<S(!new), R>(cfg: Config<S, R>, i: nat, j: nat) {
    forall s: S :: CommutesAt(cfg, i, j, s)
  }

  predicate CommutesAt<S(==), R(==)>(cfg: Config<S, R>, i: nat, j: nat, s: S) {
    var first := cfg.exec(i, s);
    var second := cfg.exec(j, first.0);
    var first' := cfg.exec(j, s);
    var second' := cfg.exec(i, first'.0);
    second.0 == second'.0 && first.1 == second'.1 && second.1 == first'.1
  }

  ghost predicate NonConflictingCommute<K(!new), S(!new), R>(cfg: Config<S, R>, cs: seq<Criticals<K>>) {
    && |cfg.out| == |cs|
    && forall i: nat, j: nat :: i < j < |cs| && !Conflict(cs[i], cs[j]) ==> Commutes(cfg, i, j)
  }

  function Ascending(n: nat): (r: seq<nat>)
    ensures |r| == n && forall i :: 0 <= i < n ==> r[i] == i
  {
    seq(n, i => i)
  }

  /**
    The transactions of log were executed one after the other: each on the state
    that the one before it left, and its receipt is at its index.
   */
  ghost predicate InTurn<S, R>(cfg: Config<S, R>, log: seq<nat>, states: seq<S>, receipts: seq<Option<R>>) {
    && |states| == |log| + 1
    && forall k :: 0 <= k < |log| ==> log[k] < |receipts| && StepAt(cfg, log, states, receipts, k)
  }

  ghost predicate StepAt<S, R>(cfg: Config<S, R>, log: seq<nat>, states: seq<S>, receipts: seq<Option<R>>, k: nat)
    requires |states| == |log| + 1 && k < |log| && log[k] < |receipts|
  {
    receipts[log[k]].Some? && (states[k + 1], receipts[log[k]].value) == cfg.exec(log[k], states[k])
  }

  /** Any order without repetition is executed in turn, and touches no other receipt. */
  lemma {:induction false} OrderInTurn<S, R>(cfg: Config<S, R>, w0: World<S, R>, log: seq<nat>)
    returns (states: seq<S>)
    requires Distinct(log) && forall k :: 0 <= k < |log| ==> log[k] < |w0.receipts|
    ensures var w := RunInOrder(cfg, w0, log);
            && |w.receipts| == |w0.receipts| && InTurn(cfg, log, states, w.receipts)
            && states[0] == w0.state && states[|log|] == w.state
            && forall i: nat :: i < |w0.receipts| && i !in log ==> w.receipts[i] == w0.receipts[i]
  {
    if log == [] {
      states := [w0.state];
    } else {
      var front, id := log[..|log| - 1], log[|log| - 1];
      var before := OrderInTurn(cfg, w0, front);
      states := before + [cfg.exec(id, before[|front|]).0];
      var w' := RunInOrder(cfg, w0, front);
      forall k | 0 <= k < |log|
        ensures log[k] < |w0.receipts| && StepAt(cfg, log, states, RunInOrder(cfg, w0, log).receipts, k)
      {
        assert k < |front| ==> StepAt(cfg, front, before, w'.receipts, k);
      }
    }
  }

  /** Two transactions that took effect against their block order do not conflict. */
  ghost predicate InversionsIndependent<K(!new)>(cs: seq<Criticals<K>>, log: seq<nat>) {
    forall x, y :: 0 <= x < y < |log| && log[y] < log[x] < |cs| ==> !Conflict(cs[log[y]], cs[log[x]])
  }

  lemma SwapAdjacent<S(!new), R>(cfg: Config<S, R>, world: World<S, R>, i: nat, j: nat)
    requires i != j && (Commutes(cfg, i, j) || Commutes(cfg, j, i))
    ensures Apply(cfg, Apply(cfg, world, i), j) == Apply(cfg, Apply(cfg, world, j), i)
  {
    assert CommutesAt(cfg, i, j, world.state) || CommutesAt(cfg, j, i, world.state);
  }

  /** A transaction moves past later ones it commutes with. */
  lemma {:induction false} MoveToEnd<S(!new), R>(
      cfg: Config<S, R>, world: World<S, R>, a: seq<nat>, m: nat, b: seq<nat>)
    requires forall i :: 0 <= i < |b| ==> b[i] < m && Commutes(cfg, b[i], m)
    ensures RunInOrder(cfg, world, a + [m] + b) == RunInOrder(cfg, world, a + b + [m])
    decreases |b|
  {
    if b == [] {
      assert a + [m] + b == a + b + [m];
    } else {
      var front, x := b[..|b| - 1], b[|b| - 1];
      assert b == front + [x];
      MoveToEnd(cfg, world, a, m, front);
      assert (a + [m] + b)[..|a + [m] + b| - 1] == a + [m] + front;
      assert (a + front + [m])[..|a + front|] == a + front;
      assert (a + b + [m])[..|a + b|] == a + b;
      assert (a + b)[..|a + b| - 1] == a + front;
      SwapAdjacent(cfg, RunInOrder(cfg, world, a + front), x, m);
    }
  }

  /** The numbers below n, and no others. */
  ghost predicate AllBelow(log: seq<nat>, n: nat) {
    && (forall i :: 0 <= i < |log| ==> log[i] < n)
    && (forall v: nat :: v < n ==> v in log)
  }

  lemma DropOne<K(!new)>(cs: seq<Criticals<K>>, log: seq<nat>, q: nat)
    requires Distinct(log) && InversionsIndependent(cs, log) && q < |log|
    ensures Distinct(log[..q] + log[q + 1..]) && InversionsIndependent(cs, log[..q] + log[q + 1..])
  {
  }

  /** Taking the largest transaction out of an order leaves an order of the others. */
  lemma DropLargest(log: seq<nat>, q: nat, m: nat)
    requires Distinct(log) && AllBelow(log, m + 1) && q < |log| && log[q] == m
    ensures AllBelow(log[..q] + log[q + 1..], m)
  {
    var others := log[..q] + log[q + 1..];
    forall i | 0 <= i < |others|
      ensures others[i] < m
    {
      var j := if i < q then i else i + 1;
      assert others[i] == log[j] && log[j] != log[q];
    }
    forall v: nat | v < m
      ensures v in others
    {
      assert v in log;
      var i :| 0 <= i < |log| && log[i] == v;
      assert others[if i < q then i else i - 1] == v;
    }
  }

  /** The largest transaction may as well be executed last. */
  lemma LargestLast<K(!new), S(!new), R>(
      cfg: Config<S, R>, cs: seq<Criticals<K>>, world: World<S, R>, log: seq<nat>, q: nat, m: nat)
    requires NonConflictingCommute(cfg, cs) && m < |cs|
    requires Distinct(log) && (forall i :: 0 <= i < |log| ==> log[i] <= m) && InversionsIndependent(cs, log)
    requires q < |log| && log[q] == m
    ensures RunInOrder(cfg, world, log) == Apply(cfg, RunInOrder(cfg, world, log[..q] + log[q + 1..]), m)
  {
    var a, b := log[..q], log[q + 1..];
    forall i | 0 <= i < |b|
      ensures b[i] < m && Commutes(cfg, b[i], m)
    {
      assert b[i] == log[q + 1 + i];
    }
    MoveToEnd(cfg, world, a, m, b);
    assert log == a + [m] + b;
    assert (a + b + [m])[..|a + b|] == a + b;
  }

  /** Any order of the whole block whose inversions are independent gives the serial world. */
  lemma {:induction false} OrderIrrelevant<K(!new), S(!new), R>(
      cfg: Config<S, R>, cs: seq<Criticals<K>>, world: World<S, R>, log: seq<nat>, n: nat)
    requires NonConflictingCommute(cfg, cs) && n <= |cs|
    requires Distinct(log) && AllBelow(log, n) && InversionsIndependent(cs, log)
    ensures RunInOrder(cfg, world, log) == RunInOrder(cfg, world, Ascending(n))
    decreases n
  {
    if n == 0 {
      assert |log| == |Ascending(0)| == 0;
    } else {
      var m := n - 1;
      assert m in log;
      var q :| 0 <= q < |log| && log[q] == m;
      DropOne(cs, log, q);
      DropLargest(log, q, m);
      OrderIrrelevant(cfg, cs, world, log[..q] + log[q + 1..], m);
      LargestLast(cfg, cs, world, log, q, m);
      assert Ascending(n)[..m] == Ascending(m);
    }
  }

  /** In the order of the log every path of the graph leads forward. */
  lemma {:induction false} LogFollowsPaths<K(!new)>(cs: seq<Criticals<K>>, log: seq<nat>, i: nat, j: nat, q: nat)
    requires Ordered(OutEdges(cs, |cs|), log) && Path(cs, i, j)
    requires q < |log| && log[q] == j
    ensures i in log[..q]
    decreases j
  {
    if Edge(cs, i, j) {
      EdgeForwardAndConflicting(cs, i, j);
      OutEdgesAreEdges(cs, i, j);
    } else {
      var m: nat :| i < m < j && Path(cs, i, m) && Edge(cs, m, j);
      EdgeForwardAndConflicting(cs, m, j);
      OutEdgesAreEdges(cs, m, j);
      assert m in log[..q];
      var q' :| 0 <= q' < q && log[..q][q'] == m;
      LogFollowsPaths(cs, log, i, m, q');
      assert forall x :: x in log[..q'] ==> x in log[..q];
    }
  }

  lemma LogInversionsIndependent<K(!new)>(cs: seq<Criticals<K>>, log: seq<nat>)
    requires Ordered(OutEdges(cs, |cs|), log) && Distinct(log)
    ensures InversionsIndependent(cs, log)
  {
    forall x, y | 0 <= x < y < |log| && log[y] < log[x] < |cs|
      ensures !Conflict(cs[log[y]], cs[log[x]])
    {
      if Conflict(cs[log[y]], cs[log[x]]) {
        ConflictHasPath(cs, log[y], log[x]);
        LogFollowsPaths(cs, log, log[y], log[x], x);
        assert false;
      }
    }
  }
}
