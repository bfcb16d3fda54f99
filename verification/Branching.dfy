/**
  Which blocks branch: two transactions that no dependency path orders, while
  a third one precedes both or follows both. A branching block has a
  transaction that frees two others, or one that two unordered ones free.
 */
module Branching {
  import opened Conflicts

  /** No path joins a and b, and c precedes both or follows both. */
  ghost predicate BranchesAt<K(!new)>(cs: seq<Criticals<K>>, a: nat, b: nat, c: nat) {
    && a < b && !Path(cs, a, b)
    && ((Path(cs, c, a) && Path(cs, c, b)) || (Path(cs, a, c) && Path(cs, b, c)))
  }

  ghost predicate Branches<K(!new)>(cs: seq<Criticals<K>>) {
    exists a: nat, b: nat, c: nat :: BranchesAt(cs, a, b, c)
  }

  ghost predicate Reaches<K(!new)>(cs: seq<Criticals<K>>, i: nat, j: nat) {
    i == j || Path(cs, i, j)
  }

  lemma {:induction false} PathForward<K(!new)>(cs: seq<Criticals<K>>, i: nat, j: nat)
    requires Path(cs, i, j)
    ensures i < j < |cs|
  {
    if Edge(cs, i, j) {
      EdgeForwardAndConflicting(cs, i, j);
    }
  }

  lemma ReachesPath<K(!new)>(cs: seq<Criticals<K>>, i: nat, m: nat, j: nat)
    requires Reaches(cs, i, m) && Path(cs, m, j)
    ensures Path(cs, i, j)
  {
    if i != m {
      PathForward(cs, i, m);
      PathJoin(cs, i, m, j);
    }
  }

  lemma PathReaches<K(!new)>(cs: seq<Criticals<K>>, i: nat, m: nat, j: nat)
    requires Path(cs, i, m) && Reaches(cs, m, j)
    ensures Path(cs, i, j)
  {
    if m != j {
      PathForward(cs, i, m);
      PathJoin(cs, i, m, j);
    }
  }

  lemma ReachesTwice<K(!new)>(cs: seq<Criticals<K>>, i: nat, m: nat, j: nat)
    requires Reaches(cs, i, m) && Reaches(cs, m, j)
    ensures Reaches(cs, i, j)
  {
    if m != j {
      ReachesPath(cs, i, m, j);
    }
  }

  lemma LastStep<K(!new)>(cs: seq<Criticals<K>>, i: nat, j: nat) returns (p: nat)
    requires Path(cs, i, j)
    ensures Reaches(cs, i, p) && Edge(cs, p, j) && i <= p < j < |cs|
  {
    if Edge(cs, i, j) {
      EdgeForwardAndConflicting(cs, i, j);
      p := i;
    } else {
      p :| i < p < j && Path(cs, i, p) && Edge(cs, p, j);
    }
  }

  /** The first step of a path from c to a can be taken so that nothing below c leads to it. */
  lemma {:induction false} FirstStep<K(!new)>(cs: seq<Criticals<K>>, c: nat, a: nat) returns (x: nat)
    requires Path(cs, c, a)
    ensures Edge(cs, c, x) && Reaches(cs, x, a)
    ensures forall p: nat :: Edge(cs, p, x) ==> !Path(cs, c, p)
    decreases a
  {
    if p: nat :| Edge(cs, p, a) && Path(cs, c, p) {
      EdgeForwardAndConflicting(cs, p, a);
      x := FirstStep(cs, c, p);
      ReachesPath(cs, x, p, a);
    } else {
      x := a;
    }
  }

  lemma {:induction false} LargestPredecessor<K(!new)>(cs: seq<Criticals<K>>, p: nat, j: nat) returns (x: nat)
    requires Edge(cs, p, j)
    ensures Edge(cs, x, j) && p <= x < j < |cs|
    ensures forall q: nat :: Edge(cs, q, j) ==> q <= x
    decreases j - p
  {
    EdgeForwardAndConflicting(cs, p, j);
    if q: nat :| Edge(cs, q, j) && p < q {
      EdgeForwardAndConflicting(cs, q, j);
      x := LargestPredecessor(cs, q, j);
    } else {
      x := p;
    }
  }

  /** x and y are unordered predecessors of j, and x is its last one. */
  ghost predicate Join<K(!new)>(cs: seq<Criticals<K>>, x: nat, y: nat, j: nat) {
    && y < x < j < |cs| && Edge(cs, x, j) && Edge(cs, y, j) && !Path(cs, y, x)
    && forall p: nat :: Edge(cs, p, j) ==> p <= x
  }

  lemma {:induction false} FindJoin<K(!new)>(cs: seq<Criticals<K>>, a: nat, b: nat, c: nat)
    returns (x: nat, y: nat, j: nat)
    requires a < b && !Path(cs, a, b) && Path(cs, a, c) && Path(cs, b, c)
    ensures Join(cs, x, y, j)
    decreases c
  {
    var pa := LastStep(cs, a, c);
    var pb := LastStep(cs, b, c);
    x := LargestPredecessor(cs, pa, c);
    j := c;
    if !Reaches(cs, pa, x) {
      y := pa;
    } else if !Reaches(cs, pb, x) {
      y := pb;
    } else {
      ReachesTwice(cs, a, pa, x);
      ReachesTwice(cs, b, pb, x);
      if Path(cs, b, x) && a == x {
        PathForward(cs, b, x);
      }
      x, y, j := FindJoin(cs, a, b, x);
    }
  }

  ghost predicate JoinFree<K(!new)>(cs: seq<Criticals<K>>) {
    forall a: nat, b: nat, c: nat :: a < b && Path(cs, a, c) && Path(cs, b, c) ==> Path(cs, a, b)
  }

  /** Once c and all that precedes it are done, nothing else holds x back. */
  ghost predicate Frees<K(!new)>(cs: seq<Criticals<K>>, c: nat, x: nat) {
    Edge(cs, c, x) && forall p: nat :: Edge(cs, p, x) ==> Reaches(cs, p, c)
  }

  lemma FirstStepFrees<K(!new)>(cs: seq<Criticals<K>>, c: nat, x: nat)
    requires JoinFree(cs) && Edge(cs, c, x) && forall p: nat :: Edge(cs, p, x) ==> !Path(cs, c, p)
    ensures Frees(cs, c, x)
  {
    forall p: nat | Edge(cs, p, x)
      ensures Reaches(cs, p, c)
    {
      assert Path(cs, p, x) && Path(cs, c, x);
    }
  }

  lemma {:induction false} FindFork<K(!new)>(cs: seq<Criticals<K>>, a: nat, b: nat, c: nat)
    returns (i: nat, x: nat, y: nat)
    requires JoinFree(cs) && a < b && !Path(cs, a, b) && Path(cs, c, a) && Path(cs, c, b)
    ensures Frees(cs, i, x) && Frees(cs, i, y) && x != y
    decreases |cs| - c
  {
    i := c;
    x := FirstStep(cs, c, a);
    y := FirstStep(cs, c, b);
    if x != y {
      FirstStepFrees(cs, c, x);
      FirstStepFrees(cs, c, y);
    } else {
      EdgeForwardAndConflicting(cs, c, x);
      if Path(cs, b, a) {
        PathForward(cs, b, a);
      }
      i, x, y := FindFork(cs, a, b, x);
    }
  }

  /** A branching block has a join, or a transaction that frees two others. */
  lemma BranchesShape<K(!new)>(cs: seq<Criticals<K>>) returns (join: bool, x: nat, y: nat, j: nat)
    requires Branches(cs)
    ensures join ==> Join(cs, x, y, j)
    ensures !join ==> Frees(cs, j, x) && Frees(cs, j, y) && x != y
  {
    if a: nat, b: nat, c: nat :| a < b && Path(cs, a, c) && Path(cs, b, c) && !Path(cs, a, b) {
      join := true;
      x, y, j := FindJoin(cs, a, b, c);
    } else {
      join := false;
      var a: nat, b: nat, c: nat :| BranchesAt(cs, a, b, c);
      j, x, y := FindFork(cs, a, b, c);
    }
  }
}
